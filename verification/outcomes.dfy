/** Outcomes of the modelled operations: a value, a recoverable error that the
    source returns as `Err(..)`, or a panic that aborts the whole run. */
module Outcomes {

  datatype Option<+T> = None | Some(value: T)

  datatype Res<+T> = Ok(value: T) | Err(msg: string) | Panic(msg: string) {

    predicate IsFailure() {
      !Ok?
    }

    function PropagateFailure<U>(): (r: Res<U>)
      requires !Ok?
      ensures r.Err? == Err? && r.Panic? == Panic? && r.msg == msg
    {
      if Err? then Err(msg) else Panic(msg)
    }

    function Extract(): T
      requires Ok?
    {
      value
    }
  }
}
