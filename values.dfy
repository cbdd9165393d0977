/**
 * The closed set of values the scheduler can carry, their runtime type tags,
 * and the failure-carrying wrappers used for the C++ exceptions.
 */
module Values {

  /** An optional value; the empty slot of a type-erased store is `None`. */
  datatype Option<+T> = None | Some(value: T)

  /**
   * The exceptions the core raises or lets through:
   * `CycleDetected` is the `std::runtime_error("Detected cycle")` thrown by `add`,
   * `OutOfRange` the `std::out_of_range` of `tasks_.at(id)`,
   * `BadCast` the `std::bad_cast` of `AnyCast`,
   * `Thrown(what)` any exception a task's callable raises.
   */
  datatype Error = CycleDetected | OutOfRange | BadCast | Thrown(what: string)

  /** A computation that either yields a value or raises an `Error`. */
  datatype Result<+T> = Ok(value: T) | Err(error: Error)

  /** A computation without a value (a `void` C++ member) that may raise an `Error`. */
  datatype Outcome = Pass | Fail(error: Error)

  /** Runtime type identity of a held value (what `dynamic_cast` on the holder compares). */
  datatype Tag = IntT | BoolT | StrT

  /** A value together with its type: the discriminated union standing for "any copyable T". */
  datatype Value = IntV(i: int) | BoolV(b: bool) | StrV(s: string)

  function TypeOf(v: Value): Tag
  {
    match v
    case IntV(_) => IntT
    case BoolV(_) => BoolT
    case StrV(_) => StrT
  }
}
