/**
  The error discipline of the employee and admin services. Each write runs in a
  transaction whose `catch` re-throws the one deliberate exception kind of that
  operation (Conflict for create, NotFound for update and delete) unchanged and
  turns everything else into an InternalServerError with a fixed message.
  Database failures are not observable in a pure model, so each operation takes a
  `DbFault` saying which database call, if any, throws.
*/
module ServiceErrors {

  /** The HTTP exceptions the services throw. */
  datatype ServiceError =
    | Conflict(message: string)
    | NotFound(message: string)
    | InternalServerError(message: string)

  /** Which database call throws: none, the lookup, or the write (save / remove / list). */
  datatype DbFault = NoFault | FailsOnRead | FailsOnWrite

  /** What can be thrown inside a transaction body. */
  datatype Thrown =
    | ConflictException(message: string)
    | NotFoundException(message: string)
    | DatabaseError

  /** The exception kind a `catch` block re-throws as is. */
  datatype Rethrown = RethrowConflict | RethrowNotFound

  predicate PassesThrough(t: Thrown, kind: Rethrown) {
    (kind == RethrowConflict && t.ConflictException?) || (kind == RethrowNotFound && t.NotFoundException?)
  }

  /** The `catch (error)` of a transaction: `kind` propagates unchanged, the rest becomes a 500. */
  function Catch(t: Thrown, kind: Rethrown, fallback: string): (r: ServiceError)
    ensures PassesThrough(t, kind) && t.ConflictException? ==> r == Conflict(t.message)
    ensures PassesThrough(t, kind) && t.NotFoundException? ==> r == NotFound(t.message)
    ensures !PassesThrough(t, kind) <==> r == InternalServerError(fallback)
  {
    if kind == RethrowConflict && t.ConflictException? then Conflict(t.message)
    else if kind == RethrowNotFound && t.NotFoundException? then NotFound(t.message)
    else InternalServerError(fallback)
  }
}
