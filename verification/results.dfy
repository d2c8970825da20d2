/** Failure-compatible return types: the model's stand-in for Python exceptions. */
module Results {

  /** An optional value, used where the source returns a value or nothing. */
  datatype Option<+T> = None | Some(value: T) {

    predicate IsFailure() {
      None?
    }

    function PropagateFailure<U>(): Option<U>
      requires None?
    {
      None
    }

    function Extract(): T
      requires Some?
    {
      value
    }
  }

  /** Either a value or the error that the source would raise instead. */
  datatype Result<+T, +E> = Ok(value: T) | Err(error: E) {

    predicate IsFailure() {
      Err?
    }

    function PropagateFailure<U>(): Result<U, E>
      requires Err?
    {
      Err(error)
    }

    function Extract(): T
      requires Ok?
    {
      value
    }

    /** Keeps a value, rewrapping an error with `f`. */
    function MapError<E2>(f: E -> E2): Result<T, E2> {
      match this
      case Ok(v) => Ok(v)
      case Err(e) => Err(f(e))
    }
  }

  /** `f(0)`, ..., `f(count - 1)` in order, or the error of the first that
      fails: a loop that stops at its first exception. */
  function Collect<T, E>(f: nat -> Result<T, E>, count: nat): Result<seq<T>, E> {
    if count == 0 then Ok([])
    else
      var earlier :- Collect(f, count - 1);
      var last :- f(count - 1);
      Ok(earlier + [last])
  }

  /** The loop succeeds with `vs` exactly when each step succeeds with its
      entry of `vs`. */
  lemma {:induction false} CollectOk<T, E>(f: nat -> Result<T, E>, count: nat, vs: seq<T>)
    ensures Collect(f, count) == Ok(vs) <==>
      |vs| == count && forall k :: 0 <= k < count ==> f(k) == Ok(vs[k])
    decreases count
  {
    if count > 0 {
      var earlier := Collect(f, count - 1);
      if Collect(f, count) == Ok(vs) {
        CollectOk(f, count - 1, earlier.value);
        assert vs == earlier.value + [f(count - 1).value];
      }
      if |vs| == count && forall k :: 0 <= k < count ==> f(k) == Ok(vs[k]) {
        var init := vs[..count - 1];
        CollectOk(f, count - 1, init);
        assert vs == init + [vs[count - 1]];
      }
    }
  }

  /** Step `k` fails with `e` after every step before it succeeded. */
  ghost predicate FailsFirstAt<T, E>(f: nat -> Result<T, E>, k: nat, e: E) {
    && f(k) == Err(e)
    && forall j :: 0 <= j < k ==> f(j).Ok?
  }

  /** When every step succeeds, so does the loop. */
  lemma {:induction false} CollectAllOk<T, E>(f: nat -> Result<T, E>, count: nat)
    requires forall k :: 0 <= k < count ==> f(k).Ok?
    ensures Collect(f, count).Ok?
    decreases count
  {
    if count > 0 {
      CollectAllOk(f, count - 1);
    }
  }

  /** When step `k` is the first to fail, the loop fails with its error. */
  lemma {:induction false} CollectFailsAt<T, E>(f: nat -> Result<T, E>, count: nat, k: nat)
    requires k < count && f(k).Err?
    requires forall j :: 0 <= j < k ==> f(j).Ok?
    ensures Collect(f, count) == Err(f(k).error)
    decreases count
  {
    if k < count - 1 {
      CollectFailsAt(f, count - 1, k);
    } else {
      CollectAllOk(f, count - 1);
    }
  }

  /** The loop fails with `e` exactly when some step fails with `e` after
      every step before it succeeded: it stops at the first failure. */
  lemma {:induction false} CollectErr<T, E>(f: nat -> Result<T, E>, count: nat, e: E)
    ensures Collect(f, count) == Err(e) <==> exists k :: 0 <= k < count && FailsFirstAt(f, k, e)
    decreases count
  {
    if count > 0 {
      var earlier := Collect(f, count - 1);
      CollectErr(f, count - 1, e);
      if earlier.Ok? {
        CollectOk(f, count - 1, earlier.value);
        if f(count - 1) == Err(e) {
          assert FailsFirstAt(f, count - 1, e);
        }
      }
      if exists k :: 0 <= k < count && FailsFirstAt(f, k, e) {
        var k :| 0 <= k < count && FailsFirstAt(f, k, e);
        CollectFailsAt(f, count, k);
      }
    }
  }
}
