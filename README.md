# Catalog backend service layer in Dafny

This project models the service layer of a small Spring catalog backend that stores products, categories and users. It covers the row lifecycle that ProductService and UserService run against their entity stores: paged listing, lookup by id, insert, update and delete. It covers CategoryService's read-only listing and lookup. It covers UserService's role replacement (`copyDtoToEntity`) and its login lookup by email. It also covers the policy that turns store failures into domain errors:

- a missing row is reported as `RosourceNotFoundException` ("Entity not found" on reads, "Id not found <id>" on update and delete);
- a row that other rows reference is reported as `DatabaseException` ("Integrity violation");
- ResourceExcepetionHandler turns each of those two errors into an HTTP status and a `StandardError` body.

The repository interfaces have no code of their own, so the store behind each one is modelled abstractly. It has a finite map from id to row, the ids in ascending order, the ids that other rows reference, and the counter that hands out the next id.

- `Store.Table` is the store's state as a value, and its operations are functions.
- `Store.Repository` is the mutable store the services call. Each of its methods is specified by the `Table` operation it performs.
- `Products.ProductService` and `Users.UserService` are classes whose `insert`, `update` and `delete` methods change the store. Each method states the whole new state and the result.
- The read operations (`findAllPaged`, `findById`, `findAll`, `loadUserByUsername`) are functions of the store's state, because they change nothing.
- The exception handler is a function of the error, the request URI and the clock reading.

Four points of the code are easy to miss:

- CategoryService's `findById` raises its own `services.exceptions.EntityNotFoundException`, not `RosourceNotFoundException`. The handler has no clause for it (`ResourceExceptions.CategoryNotFoundIsNotHandled`).
- ProductService's `insert` copies only the name of the submitted DTO, and `update` overwrites only the name. The description, price, image, date and categories are not copied.
- The not-found error carries a message string built from the id, not the id itself. `Errors.IdNotFoundNamesId` proves that the id can be recovered from the message.
- loadUserByUsername does not catch the exception the email query raises when several users share an email. That failure reaches no handler (`ResourceExceptions.DuplicateEmailIsNotHandled`).

## Model

| member | source | states |
|---|---|---|
| Decimal.LongToString | backend/src/main/java/com/io/github/rafaelsouuza/dscatalog/services/ProductService.java:54 | The id in "Id not found " + id is rendered as Long.toString does: a minus sign exactly when negative, then at least one digit, with no leading zero |
| Decimal.ParseLongToString | backend/src/main/java/com/io/github/rafaelsouuza/dscatalog/services/ProductService.java:62 | Reading the rendered id back as a signed decimal numeral gives the same id, for every Long |
| Decimal.LongToStringInjective | backend/src/main/java/com/io/github/rafaelsouuza/dscatalog/services/UserService.java:84 | Two different ids are never rendered as the same text |
| Errors.IdNotFoundNamesId | backend/src/main/java/com/io/github/rafaelsouuza/dscatalog/services/UserService.java:75 | "Id not found " + a equals "Id not found " + b only when a == b, so the message identifies the id the operation failed on |
| Errors.TranslateDelete | backend/src/main/java/com/io/github/rafaelsouuza/dscatalog/services/ProductService.java:58-66 | The catch clauses around deleteById: success only on a normal return; EmptyResultDataAccessException becomes RosourceNotFoundException "Id not found <id>"; DataIntegrityViolationException becomes DatabaseException "Integrity violation" |
| Errors.DeleteOutcomes | backend/src/main/java/com/io/github/rafaelsouuza/dscatalog/services/UserService.java:79-89 | On any store, delete has exactly three outcomes. A missing id gives not-found and the store is unchanged. A referenced row gives "Integrity violation" and the row stays. Otherwise the call succeeds, exactly that row is gone and the count drops by one. The not-found check comes first |
| Store.Table.Entries | backend/src/main/java/com/io/github/rafaelsouuza/dscatalog/repositories/ProductRepository.java:7-9 | findAll() lists every stored row exactly once, each with its own id and values, in ascending id order, and its length is count() |
| Store.Table.Page | backend/src/main/java/com/io/github/rafaelsouuza/dscatalog/services/ProductService.java:27 | findAll(PageRequest.of(page, size)) holds the rows at offsets page*size up to min((page+1)*size, count), in order; a page past the end is empty, not an error |
| Store.PagesArePrefixes | backend/src/main/java/com/io/github/rafaelsouuza/dscatalog/services/ProductService.java:26-29 | Reading pages 0 .. k-1 of one size one after the other yields exactly the first min(k*size, count) rows in order: pages neither overlap nor skip rows |
| Store.PagesCoverAllRows | backend/src/main/java/com/io/github/rafaelsouuza/dscatalog/services/UserService.java:44-48 | Reading enough pages of any size yields every stored row exactly once, in order |
| Store.Table.Insert | backend/src/test/java/com/io/github/rafaelsouuza/dscatalog/repositories/ProductRepositoryTests.java:32-41 | save() of an entity without an id stores it under the counter's id. That id was free. The count grows by one, the other rows and references are unchanged, and the store invariant still holds |
| Store.InsertAppendsEntry | backend/src/test/java/com/io/github/rafaelsouuza/dscatalog/repositories/ProductRepositoryTests.java:31-41 | A newly saved row is listed after every row that was already stored, and the earlier listing is unchanged |
| Store.Table.Put | backend/src/main/java/com/io/github/rafaelsouuza/dscatalog/services/ProductService.java:51 | save() of an entity that is already stored overwrites that row only. It keeps the same ids and count, and the invariant still holds |
| Store.Table.Delete | backend/src/test/java/com/io/github/rafaelsouuza/dscatalog/repositories/ProductRepositoryTests.java:43-58 | deleteById fails with EmptyResult exactly when the id is absent. It fails with IntegrityViolation exactly when the row is referenced. A failed delete leaves the store unchanged. A successful one removes exactly that row and the row is no longer found |
| Store.Repository.GetReferenceById | backend/src/main/java/com/io/github/rafaelsouuza/dscatalog/services/ProductService.java:49 | getReferenceById yields the stored row when the id is present. Otherwise it stands for the reference whose use raises EntityNotFoundException |
| Store.Repository.Save | backend/src/main/java/com/io/github/rafaelsouuza/dscatalog/services/ProductService.java:42 | The mutable store's save performs Table.Insert for a new entity or Table.Put for a stored one, and keeps the store invariant |
| Store.Repository.DeleteById | backend/src/main/java/com/io/github/rafaelsouuza/dscatalog/services/ProductService.java:60 | The mutable store's deleteById performs Table.Delete: the new state and the outcome are exactly those of the value operation |
| Categories.FindAll | backend/src/main/java/com/io/github/rafaelsouuza/dscatalog/services/CategoryService.java:21-25 | findAll returns one CategoryDTO per stored category, with the same length and order as the store's listing |
| Categories.FindById | backend/src/main/java/com/io/github/rafaelsouuza/dscatalog/services/CategoryService.java:27-32 | findById succeeds exactly when the id is stored, with that category's id and name. Otherwise it fails with services.exceptions.EntityNotFoundException "Entity not found" |
| Categories.FindByIdAgreesWithFindAll | backend/src/main/java/com/io/github/rafaelsouuza/dscatalog/services/CategoryService.java:21-32 | A category found by id appears in findAll, and every category findAll lists is found by its id with the same DTO |
| Store.Table.MapPage | backend/src/main/java/com/io/github/rafaelsouuza/dscatalog/services/ProductService.java:25-29 | findAllPaged maps the page through the DTO constructor: element k is the DTO of the store's row at offset page*size+k, the page holds min(size, count - page*size) elements, and a page past the end is empty. Products.FindAllPaged and Users.FindAllPaged (UserService.java:44-48) are this map with ProductDTO and UserDTO |
| Products.PagingExample | backend/src/test/java/com/io/github/rafaelsouuza/dscatalog/services/ProductServiceIT.java:55-76 | With 25 stored products, page 0 of size 10 holds 10 products and page 50 holds none |
| Products.FindById | backend/src/main/java/com/io/github/rafaelsouuza/dscatalog/services/ProductService.java:31-36 | findById succeeds exactly when the id is stored. It returns that product's id, every field and the DTO of each of its categories, in order. Otherwise it fails with RosourceNotFoundException "Entity not found" |
| Products.InsertThenFindById | backend/src/main/java/com/io/github/rafaelsouuza/dscatalog/services/ProductService.java:38-44 | After insert, the returned id was free, and findById on it returns a product with the submitted name and no other field set |
| Products.UpdateChangesOnlyName | backend/src/main/java/com/io/github/rafaelsouuza/dscatalog/services/ProductService.java:46-52 | After update of a stored id, findById returns the earlier DTO with only the name changed, and every other id's findById result is unchanged |
| Products.DeleteThenFindById | backend/src/test/java/com/io/github/rafaelsouuza/dscatalog/services/ProductServiceIT.java:39-45 | Deleting a stored, unreferenced product succeeds, the count drops by one, and findById on that id then fails with "Entity not found" |
| Products.ProductService.Insert | backend/src/main/java/com/io/github/rafaelsouuza/dscatalog/services/ProductService.java:38-44 | insert saves a new product holding only the DTO's name under a previously free id. The store grows by exactly one row, and the DTO of the saved row is returned |
| Products.ProductService.Update | backend/src/main/java/com/io/github/rafaelsouuza/dscatalog/services/ProductService.java:46-56 | update on a missing id raises RosourceNotFoundException "Id not found <id>" and changes nothing. On a stored id it overwrites only the name, leaves every other row as it was, and returns the updated DTO |
| Products.ProductService.Delete | backend/src/main/java/com/io/github/rafaelsouuza/dscatalog/services/ProductService.java:58-66 | delete removes an unreferenced stored row and nothing else, so the count drops by one. A missing id raises "Id not found <id>", and a referenced row raises "Integrity violation". In both failure cases the store is unchanged |
| Users.Distinct | backend/src/main/java/com/io/github/rafaelsouuza/dscatalog/services/UserService.java:97-101 | Adding role ids one by one to the user's role set leaves every listed id in it exactly once, and no other id |
| Users.CopyDtoToEntity | backend/src/main/java/com/io/github/rafaelsouuza/dscatalog/services/UserService.java:91-102 | Sets firstName, lastName and email from the DTO and keeps the password. The role collection afterwards holds exactly the ids the DTO lists, each once, and no earlier role |
| Users.RolesReplacedWholesale | backend/src/main/java/com/io/github/rafaelsouuza/dscatalog/services/UserService.java:97 | The roles after copyDtoToEntity depend on the DTO alone. A role the user had before does not survive unless the DTO lists it again |
| Users.FindById | backend/src/main/java/com/io/github/rafaelsouuza/dscatalog/services/UserService.java:50-55 | findById succeeds exactly when the id is stored. It returns that user's id, names, email and role ids, and no password. Otherwise it fails with RosourceNotFoundException "Entity not found" |
| Users.FindByEmail | backend/src/main/java/com/io/github/rafaelsouuza/dscatalog/services/UserService.java:107 | The single-result query findByEmail returns null exactly when no stored user has the email. It returns a user exactly when one stored user has it, and then that user's id and row. It fails with IncorrectResultSizeDataAccessException exactly when two distinct stored users have it (expected 1; the actual count is only in the message, which is not modelled) |
| Users.LoadUserByUsername | backend/src/main/java/com/io/github/rafaelsouuza/dscatalog/services/UserService.java:104-114 | Succeeds exactly when one stored user has the given email, and returns that stored user. It fails with UsernameNotFoundException "Email not found" exactly when no stored user has it. When several do, the query's IncorrectResultSizeDataAccessException propagates uncaught |
| Users.InsertThenFindById | backend/src/main/java/com/io/github/rafaelsouuza/dscatalog/services/UserService.java:57-64 | After insert, the new id was free. findById on it returns the submitted names and email, and the submitted role ids with duplicates dropped. The stored password is the encoded one |
| Users.UserService.Insert | backend/src/main/java/com/io/github/rafaelsouuza/dscatalog/services/UserService.java:57-64 | insert saves one new row under a previously free id. The row holds the DTO's fields and roles and the encoded password, never the raw one. The store grows by exactly one row |
| Users.UserService.Update | backend/src/main/java/com/io/github/rafaelsouuza/dscatalog/services/UserService.java:66-77 | update on a missing id raises "Id not found <id>" and changes nothing. On a stored id it replaces the names, email and roles, keeps the password, and leaves every other row as it was |
| Users.UserService.Delete | backend/src/main/java/com/io/github/rafaelsouuza/dscatalog/services/UserService.java:79-89 | delete has the same three outcomes as for products: the row is removed, or "Id not found <id>" is raised, or "Integrity violation" is raised and the row is kept |
| ResourceExceptions.EntityNotFound | backend/src/main/java/com/io/github/rafaelsouuza/dscatalog/resources/exceptions/ResourceExcepetionHandler.java:16-29 | The response has status 404, the body's status equals it, the error label is "Resource not found", and the body carries the exception's message, the request URI and the timestamp unchanged |
| ResourceExceptions.Database | backend/src/main/java/com/io/github/rafaelsouuza/dscatalog/resources/exceptions/ResourceExcepetionHandler.java:31-44 | The response has status 400, the body's status equals it, the error label is "Database exception", and the body carries the message, URI and timestamp unchanged |
| ResourceExceptions.Handle | backend/src/main/java/com/io/github/rafaelsouuza/dscatalog/resources/exceptions/ResourceExcepetionHandler.java:13-45 | Only RosourceNotFoundException and DatabaseException are translated. The status is 404 exactly for the first and 400 exactly for the second. The message and path pass through unchanged |
| ResourceExceptions.MissingProductExample | backend/src/main/java/com/io/github/rafaelsouuza/dscatalog/resources/exceptions/ResourceExcepetionHandler.java:16-29 | A missing product 1000 requested at /products/1000 answers 404, "Resource not found", "Id not found 1000", "/products/1000" |
| ResourceExceptions.ReferencedProductExample | backend/src/main/java/com/io/github/rafaelsouuza/dscatalog/resources/exceptions/ResourceExcepetionHandler.java:31-44 | A referenced product requested at /products/3 answers 400, "Database exception", "Integrity violation", "/products/3" |
| ResourceExceptions.DeleteFailureResponse | backend/src/main/java/com/io/github/rafaelsouuza/dscatalog/services/ProductService.java:58-66 | Every failed delete reaches a handler. A missing id answers 404 with a message from which exactly that id can be read back. A referenced row answers 400 "Database exception" |
| ResourceExceptions.CategoryNotFoundIsNotHandled | backend/src/main/java/com/io/github/rafaelsouuza/dscatalog/services/CategoryService.java:27-32 | CategoryService's not-found error reaches no handler of ResourceExcepetionHandler |
| ResourceExceptions.DuplicateEmailIsNotHandled | backend/src/main/java/com/io/github/rafaelsouuza/dscatalog/services/UserService.java:104-114 | When two users share the email a login names, loadUserByUsername ends with IncorrectResultSizeDataAccessException, and no handler of ResourceExcepetionHandler translates it |

## Left out

- Entities are values, not managed objects. The in-place setter calls on an entity obtained from getReferenceById are modelled as building the updated row and saving it. Aliasing of managed entities and the ORM's flush are not modelled.
- `getReferenceById`'s lazy proxy is not modelled. A missing id is decided when the reference is obtained, which is where the catch clause in update acts.
- Roles are referenced by id only. The role store, the authority label and a role id that does not exist are not modelled, so copyDtoToEntity never fails on an unknown role. RoleRepository is not modelled.
- The role collection is a `Set<Role>` in the entity. It is modelled as a duplicate-free sequence in the order ids were first added.
- UserRepository as it stands declares no `findByEmail`. The query is modelled as the single-result query Spring Data derives from that name. The exception it raises on several matches is modelled by its expected size of 1 only. The actual count appears only in the exception's message, and that message is not modelled.
- Ids are unbounded integers. Long's 64-bit width and its overflow are not modelled.
- Store.Table.Insert: the new id is the counter's value, which is above every stored id. ProductRepositoryTests expects count + 1. That holds only when ids 1 .. count were handed out in turn and none was deleted, and the model does not tie the counter to the count.
- Prices are modelled as `real`. Java's floating point is not modelled, because the services never compute with prices.
- The timestamp of an error body (`Instant.now()`) is an input to the handler.
- The password encoder (BCrypt) is an uninterpreted function given to UserService.
- `@Transactional` boundaries, commit and rollback: each operation is modelled as atomic.
- Logging in loadUserByUsername.
- Sorting a page by a property (`Sort.by("name")`), which depends on the database collation. Pages are read in ascending id order.
- The `Page` object's metadata (number, size, total elements). A page is modelled as its list of DTOs.
- HTTP routing, request handling and JSON serialisation of the controllers.
- Bean validation (`@UserInsertValid`, `@UserUpdateValid`). Its validator classes are not modelled.
- The DTO and entity classes are not modelled. `ProductDTO(entity)` is taken to carry no categories, and `ProductDTO(entity, categories)` to carry one CategoryDTO per category in order.
- Store failures other than a missing id and a referenced row (connectivity, other constraints) are not modelled. They propagate unmapped in the source.
- loadUserByUsername returns the User entity as `UserDetails`. The authorities derived from roles are not modelled.
