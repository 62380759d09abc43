/** Shared vocabulary of the cinema catalogue model: nullable values, clock
    values, and the outcome of a service call. */
module Common {

  /** A Java reference that may be null. */
  datatype Option<+T> = None | Some(value: T)

  /** A LocalDate, counted in days: chronological order is integer order. */
  type Date = int

  /** A LocalDateTime supplied by the clock or by the persistence layer's
      creation/update timestamps. The model never inspects it. */
  type Timestamp = int

  /** What a service call yields: a value, or the NotFoundException it throws
      (both exception classes of the code base are one outcome here). */
  datatype Outcome<+T> = Ok(value: T) | NotFound(message: string)

  /** A service call: the repository it writes, as it is after the call, and
      the outcome. A call that throws leaves the repository as it found it. */
  datatype Effect<S, T> = Effect(after: S, outcome: Outcome<T>)

  /** One property under MapStruct's IGNORE null-value strategy: a non-null
      source value overwrites the target, a null one leaves it. */
  function Merge<T>(source: Option<T>, target: Option<T>): Option<T>
  {
    if source.Some? then source else target
  }
}
