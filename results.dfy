/** Success/failure results standing in for the script's exceptions and
    `exit(1)` calls. */
module Results {

  datatype Result<+T, +E> = Ok(value: T) | Err(error: E) {

    predicate IsFailure() {
      Err?
    }

    function PropagateFailure<U>(): Result<U, E>
      requires Err?
    {
      Err(error)
    }

    function Extract(): T
      requires Ok?
    {
      value
    }
  }

  /** Puts `prefix` in front of a successful list result; a failure passes through. */
  function Prepend<T, E>(prefix: seq<T>, r: Result<seq<T>, E>): Result<seq<T>, E>
  {
    match r
    case Ok(rest) => Ok(prefix + rest)
    case Err(e) => Err(e)
  }

  lemma PrependAssociative<T, E>(a: seq<T>, b: seq<T>, r: Result<seq<T>, E>)
    ensures Prepend(a, Prepend(b, r)) == Prepend(a + b, r)
  {
    if r.Ok? {
      assert a + (b + r.value) == (a + b) + r.value;
    }
  }
}
