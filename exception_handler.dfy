/**
 * ResourceExcepetionHandler: turns the two domain errors it handles into an
 * HTTP status and a StandardError body. Each handler fills a fresh body, so
 * the translation is a function of the error, the request URI and the clock
 * reading.
 */
module ResourceExceptions {
  import opened Values
  import opened Decimal
  import opened Errors
  import opened Store
  import Categories
  import Users

  /** The error body: timestamp, status, error label, message, path. */
  datatype StandardError = StandardError(timestamp: Instant, status: int, error: string, message: string, path: string)

  /** ResponseEntity<StandardError>: the HTTP status and the body. */
  datatype Response = Response(status: int, body: StandardError)

  const NotFound: int := 404    // HttpStatus.NOT_FOUND
  const BadRequest: int := 400  // HttpStatus.BAD_REQUEST

  /** entityNotFound(e, request), the handler for RosourceNotFoundException. */
  function EntityNotFound(message: string, path: string, now: Instant): (r: Response)
    ensures r.status == NotFound && r.body.status == r.status
    ensures r.body.error == "Resource not found"
    ensures r.body.message == message && r.body.path == path && r.body.timestamp == now
  {
    Response(NotFound, StandardError(now, NotFound, "Resource not found", message, path))
  }

  /** database(e, request), the handler for DatabaseException. */
  function Database(message: string, path: string, now: Instant): (r: Response)
    ensures r.status == BadRequest && r.body.status == r.status
    ensures r.body.error == "Database exception"
    ensures r.body.message == message && r.body.path == path && r.body.timestamp == now
  {
    Response(BadRequest, StandardError(now, BadRequest, "Database exception", message, path))
  }

  /** The handler, if any, that the controller advice selects for an error:
      only RosourceNotFoundException and DatabaseException are translated. */
  function Handle(e: ServiceError, path: string, now: Instant): (r: Option<Response>)
    ensures r.Some? <==> e.ResourceNotFound? || e.Database?
    ensures r.Some? ==> && r.value.status == r.value.body.status
                        && r.value.body.message == e.message
                        && r.value.body.path == path
                        && r.value.body.timestamp == now
    ensures r.Some? ==> (r.value.status == NotFound <==> e.ResourceNotFound?)
    ensures r.Some? ==> (r.value.status == BadRequest <==> e.Database?)
  {
    match e
    case ResourceNotFound(message) => Some(EntityNotFound(message, path, now))
    case Database(message) => Some(Database(message, path, now))
    case EntityNotFound(_) => None
    case UsernameNotFound(_) => None
    case IncorrectResultSize(_) => None
  }

  /** Deleting product 1000 when it does not exist, requested at /products/1000. */
  lemma MissingProductExample(now: Instant)
    ensures Handle(ResourceNotFound(IdNotFound(1000)), "/products/1000", now)
         == Some(Response(404, StandardError(now, 404, "Resource not found", "Id not found 1000", "/products/1000")))
  {
    assert NatToString(1) == "1";
    assert NatToString(10) == "10";
    assert NatToString(100) == "100";
    assert NatToString(1000) == "1000";
    assert LongToString(1000) == "1000";
    assert IdNotFound(1000) == "Id not found 1000";
  }

  /** Deleting product 3 while other rows reference it, requested at /products/3. */
  lemma ReferencedProductExample(now: Instant)
    ensures Handle(ServiceError.Database(IntegrityViolationMessage), "/products/3", now)
         == Some(Response(400, StandardError(now, 400, "Database exception", "Integrity violation", "/products/3")))
  {
  }

  /** From the store to the wire: a failed delete always reaches a handler; a missing
      id answers 404 with a message from which the id can be read back, a referenced
      row answers 400 "Database exception". */
  lemma DeleteFailureResponse<R>(t: Table<R>, id: Id, path: string, now: Instant)
    requires t.Valid()
    ensures var r := TranslateDelete(id, t.Delete(id).1);
      && (r.Err? ==> Handle(r.error, path, now).Some?)
      && (id !in t.rows ==>
            && Handle(r.error, path, now).value.status == NotFound
            && Handle(r.error, path, now).value.body.message == IdNotFound(id)
            && forall other: Id :: Handle(r.error, path, now).value.body.message == IdNotFound(other) ==> other == id)
      && (id in t.rows && id in t.referenced ==>
            && Handle(r.error, path, now).value.status == BadRequest
            && Handle(r.error, path, now).value.body.error == "Database exception")
  {
    forall other: Id ensures IdNotFound(other) == IdNotFound(id) ==> other == id {
      IdNotFoundNamesId(other, id);
    }
  }

  /** CategoryService's not-found error is of another type than RosourceNotFoundException:
      no handler here translates it. */
  lemma CategoryNotFoundIsNotHandled(t: Table<Categories.Category>, id: Id, path: string, now: Instant)
    requires id !in t.rows
    ensures Handle(Categories.FindById(t, id).error, path, now) == None
  {
  }

  /** Two users sharing the email a login names: loadUserByUsername ends with the
      query's IncorrectResultSizeDataAccessException, which no handler here translates. */
  lemma DuplicateEmailIsNotHandled(t: Table<Users.User>, a: Id, b: Id, username: string, path: string, now: Instant)
    requires t.Valid() && a != b && Users.HasEmail(t, a, username) && Users.HasEmail(t, b, username)
    ensures Users.LoadUserByUsername(t, username).Err?
    ensures Users.LoadUserByUsername(t, username).error.IncorrectResultSize?
    ensures Handle(Users.LoadUserByUsername(t, username).error, path, now) == None
  {
  }
}
