/** Values shared by every layer: identities, C# nullability, and the exceptions the core raises. */
module Common {

  /** A database identity (a C# `long`; the model does not bound it). */
  type Id = int

  /** A point in time (`DateTime` or `DateTimeOffset`), kept as an opaque tick count. */
  type Instant = int

  /** A C# nullable value or reference: `null` is `None`. */
  datatype Option<T> = None | Some(value: T)

  /** The exceptions the modelled code throws or lets through. */
  datatype Error =
      /** `InvalidOperationException` raised by the unit of work. */
    | InvalidOperation(message: string)
      /** `NotFoundException` raised by a repository's `GetByIdAsync`. */
    | NotFound(message: string)
      /** `NotFoundException` raised by `Guard.Against.NotFound(key, entity)`. */
    | KeyNotFound(key: Id)
      /** Any exception raised by the database provider (save, commit, rollback, begin). */
    | DatabaseFailure(code: nat)

  /** A call that returns a value or throws. */
  datatype Result<T> = Success(value: T) | Failure(error: Error)

  /** A call that returns nothing or throws. */
  datatype Outcome = Ok | Threw(error: Error)

  /** C# `s ?? fallback` on strings. */
  function Coalesce(s: Option<string>, fallback: string): string
  {
    if s.Some? then s.value else fallback
  }

  /** The value of a successful call, passed through `f`; a failure keeps its error. */
  function MapResult<A, B>(r: Result<A>, f: A -> B): (m: Result<B>)
    ensures m.Success? <==> r.Success?
    ensures m.Success? ==> m.value == f(r.value)
    ensures m.Failure? ==> m.error == r.error
  {
    if r.Success? then Success(f(r.value)) else Failure(r.error)
  }

  /** A call whose value the caller discards. */
  function AsOutcome<T>(r: Result<T>): (o: Outcome)
    ensures o.Ok? <==> r.Success?
    ensures o.Threw? ==> o.error == r.error
  {
    if r.Success? then Ok else Threw(r.error)
  }
}
