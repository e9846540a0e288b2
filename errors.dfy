/**
 * The domain errors the services raise, the texts they carry, and the
 * catch clauses that turn the store's delete failures into domain errors.
 */
module Errors {
  import opened Values
  import opened Decimal
  import opened Store

  /** The exception types a service call can end with. */
  datatype ServiceError =
    | ResourceNotFound(message: string)  // services.exceptions.RosourceNotFoundException
    | Database(message: string)          // services.exceptions.DatabaseException
    | EntityNotFound(message: string)    // services.exceptions.EntityNotFoundException, raised by CategoryService
    | UsernameNotFound(message: string)  // Spring Security's UsernameNotFoundException
    | IncorrectResultSize(expectedSize: nat)
      // Spring's IncorrectResultSizeDataAccessException, raised by a single-result query that matched several rows

  /** A service call's outcome: the DTO it returns, or the exception it throws. */
  datatype Result<+T> = Ok(value: T) | Err(error: ServiceError)

  const EntityNotFoundMessage: string := "Entity not found"
  const IntegrityViolationMessage: string := "Integrity violation"
  const EmailNotFoundMessage: string := "Email not found"

  /** "Id not found " + id */
  function IdNotFound(id: Id): string {
    "Id not found " + LongToString(id)
  }

  /** The message of a failed update or delete names the id it was about:
      two ids give the same message only when they are the same id. */
  lemma IdNotFoundNamesId(a: Id, b: Id)
    ensures IdNotFound(a) == IdNotFound(b) ==> a == b
  {
    if IdNotFound(a) == IdNotFound(b) {
      var prefix := "Id not found ";
      assert IdNotFound(a)[|prefix|..] == LongToString(a);
      assert IdNotFound(b)[|prefix|..] == LongToString(b);
      LongToStringInjective(a, b);
    }
  }

  /** The two catch clauses around deleteById, shared by ProductService.delete and
      UserService.delete: a missing id is reported as not found, a referenced row
      as a database error; a normal return is success. */
  function TranslateDelete(id: Id, outcome: DeleteOutcome): (r: Result<()>)
    ensures r.Ok? <==> outcome == Deleted
    ensures outcome == EmptyResult ==> r.error.ResourceNotFound? && r.error.message == IdNotFound(id)
    ensures outcome == IntegrityViolation ==> r.error.Database? && r.error.message == IntegrityViolationMessage
  {
    match outcome
    case Deleted => Ok(())
    case EmptyResult => Err(ResourceNotFound(IdNotFound(id)))
    case IntegrityViolation => Err(Database(IntegrityViolationMessage))
  }

  /** Deleting from any store: the three outcomes a delete can have, with the
      not-found check taking precedence over the integrity check. */
  lemma DeleteOutcomes<R>(t: Table<R>, id: Id)
    requires t.Valid()
    ensures var (t', r) := (t.Delete(id).0, TranslateDelete(id, t.Delete(id).1));
      && (id !in t.rows ==> r == Err(ResourceNotFound(IdNotFound(id))) && t' == t)
      && (id in t.rows && id in t.referenced ==> r == Err(Database(IntegrityViolationMessage)) && t' == t && id in t'.rows)
      && (id in t.rows && id !in t.referenced ==> r == Ok(()) && t'.rows == t.rows - {id} && t'.Count() == t.Count() - 1)
  {
  }
}
