/** Values shared by every router: optional and failing results, the validation issues
    that the input schemas report, and the errors a procedure ends with. */
module Common {

  datatype Option<+T> = None | Some(value: T)

  datatype Result<+T> = Success(value: T) | Failure(error: Error)

  /** One step of the path to an offending input field: an object key or an array index. */
  datatype PathSeg = Key(name: string) | Index(i: nat)

  /** The message of a validation issue: a text written in the schema, or the schema
      library's own message for a value outside an enumeration. */
  datatype Message = Text(text: string) | InvalidEnumValue(options: seq<string>, received: string)

  datatype Issue = Issue(path: seq<PathSeg>, message: Message)

  /** Why a procedure did not complete. */
  datatype Error =
    | InvalidInput(issues: seq<Issue>)                 // the input schema rejected the input
    | ExercisesNotFound(ids: seq<int>)                 // "Exercises not found with IDs: ..."
    | ExerciseNotFound(id: int)                        // "Exercise with ID ... not found"
    | WorkoutNotFound                                  // "Workout not found"
    | UniqueViolation(table: string, column: string)   // the database refused a duplicate key
    | ForeignKeyViolation(table: string, column: string) // the database refused a dangling reference

  /** The issue a numeric `.min(lo, msg)` check reports for `x`, if any. */
  function MinIssues(path: seq<PathSeg>, x: int, lo: int, msg: string): (r: seq<Issue>)
    ensures r == [] <==> lo <= x
  {
    if x < lo then [Issue(path, Text(msg))] else []
  }

  /** The issues of a numeric `.min(lo, loMsg).max(hi, hiMsg)` chain, checked in that order. */
  function RangeIssues(path: seq<PathSeg>, x: int, lo: int, hi: int, loMsg: string, hiMsg: string): (r: seq<Issue>)
    ensures r == [] <==> lo <= x <= hi
  {
    MinIssues(path, x, lo, loMsg) + (if x > hi then [Issue(path, Text(hiMsg))] else [])
  }

  /** The issues of the elements of a `z.array(z.enum(options))` value, from index `from` on:
      one per element outside the enumeration, in element order. */
  function EnumElementIssues(path: seq<PathSeg>, xs: seq<string>, options: seq<string>, from: nat): (r: seq<Issue>)
    ensures r == [] <==> forall k :: 0 <= k < |xs| ==> xs[k] in options
    ensures forall x :: x in r ==> x.message.InvalidEnumValue? && x.message.options == options && x.message.received in xs
    decreases |xs|
  {
    if xs == [] then []
    else
      var rest := EnumElementIssues(path, xs[1..], options, from + 1);
      assert (forall k :: 0 <= k < |xs| ==> xs[k] in options)
         <==> xs[0] in options && (forall k :: 0 <= k < |xs[1..]| ==> xs[1..][k] in options) by {
        if xs[0] in options && (forall k :: 0 <= k < |xs[1..]| ==> xs[1..][k] in options) {
          forall k | 0 <= k < |xs| ensures xs[k] in options {
            if k > 0 { assert xs[k] == xs[1..][k - 1]; }
          }
        }
      }
      assert forall y :: y in xs[1..] ==> y in xs;
      (if xs[0] in options then [] else [Issue(path + [Index(from)], InvalidEnumValue(options, xs[0]))]) + rest
  }

  /** `a` can be obtained from `b` by deleting elements: order is kept. */
  ghost predicate Subsequence<T>(a: seq<T>, b: seq<T>)
    decreases |b|
  {
    if a == [] then true
    else if b == [] then false
    else if a[0] == b[0] then Subsequence(a[1..], b[1..])
    else Subsequence(a, b[1..])
  }
}
