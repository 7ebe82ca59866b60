module Wrappers {
  datatype Option<+T> = None | Some(value: T)

  datatype Result<+T, +E> = Ok(value: T) | Err(error: E) {
    predicate IsFailure() {
      Err?
    }

    function PropagateFailure<U>(): Result<U, E>
      requires Err?
    {
      Err(error)
    }

    function Extract(): T
      requires Ok?
    {
      value
    }
  }

  function Map<T, U>(f: T -> U, xs: seq<T>): (ys: seq<U>)
    ensures |ys| == |xs|
    ensures forall i :: 0 <= i < |xs| ==> ys[i] == f(xs[i])
  {
    seq(|xs|, i requires 0 <= i < |xs| => f(xs[i]))
  }

  /** What is done in front of what is still to do. */
  function Prepended<T, E>(done: seq<T>, todo: Result<seq<T>, E>): Result<seq<T>, E> {
    var rest :- todo;
    Ok(done + rest)
  }

  lemma PrependedLaws<T, E>(done: seq<T>, more: seq<T>, todo: Result<seq<T>, E>)
    ensures Prepended([], todo) == todo
    ensures Prepended<T, E>(done, Ok([])) == Ok(done)
    ensures Prepended(done, Prepended(more, todo)) == Prepended(done + more, todo)
  {
    assert done + [] == done;
    if todo.Ok? {
      assert [] + todo.value == todo.value;
      assert done + (more + todo.value) == done + more + todo.value;
    }
  }
}
