/**
 Java-flavoured result types used throughout the model.
 - `Option<T>`: a Java reference that may be `null` (`None`).
 - `Res<T>`: the outcome of a Java computation that may raise a runtime
   exception (`Throws`); the model does not distinguish exception classes
   because no code in the modelled core inspects them after they escape.
 `Res` is failure-compatible, so `:-` propagates a thrown exception.
 */
module Outcomes {

  datatype Option<+T> = None | Some(value: T) {

    function GetOr(default: T): T {
      match this
      case Some(v) => v
      case None => default
    }
  }

  datatype Res<+T> = Ok(value: T) | Throws {

    predicate IsFailure() {
      Throws?
    }

    function PropagateFailure<U>(): Res<U>
      requires Throws?
    {
      Throws
    }

    function Extract(): T
      requires Ok?
    {
      value
    }
  }
}
