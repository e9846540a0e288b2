/**
 * UserService. The reads (findAllPaged, findById, loadUserByUsername) are
 * functions of the user store's state; copyDtoToEntity rebuilds a user's
 * fields and role collection with a loop; insert, update and delete change
 * the store and are methods of the service.
 */
module Users {
  import opened Values
  import opened Errors
  import opened Store

  /** A user row. A role is referenced by its id. */
  datatype User = User(firstName: string, lastName: string, email: string, password: string, roles: seq<Id>)

  datatype RoleDto = RoleDto(id: Id)

  /** UserDTO, and UserUpdateDTO, which adds nothing to it. */
  datatype UserDto = UserDto(id: Id, firstName: string, lastName: string, email: string, roles: seq<RoleDto>)

  /** UserInsertDTO: a UserDTO with the raw password. */
  datatype UserInsertDto = UserInsertDto(user: UserDto, password: string)

  /** new User(): every field is overwritten before the row is saved. */
  const Blank: User := User("", "", "", "", [])

  predicate NoDuplicates(s: seq<Id>) {
    forall i, j :: 0 <= i < j < |s| ==> s[i] != s[j]
  }

  /** The role ids a DTO lists, in its order. */
  function RoleIds(rs: seq<RoleDto>): (ids: seq<Id>)
    ensures |ids| == |rs| && forall i :: 0 <= i < |rs| ==> ids[i] == rs[i].id
  {
    seq(|rs|, i requires 0 <= i < |rs| => rs[i].id)
  }

  /** Adding the ids of s one by one to an empty set collection: each id once,
      at its first occurrence. */
  function Distinct(s: seq<Id>): (r: seq<Id>)
    ensures forall x :: x in r <==> x in s
    ensures NoDuplicates(r)
  {
    if s == [] then []
    else
      var d, x := Distinct(s[..|s| - 1]), s[|s| - 1];
      assert forall y :: y in s <==> y in s[..|s| - 1] || y == x;
      if x in d then d else d + [x]
  }

  /** The user after copyDtoToEntity(dto, entity): names and email from the DTO,
      the role collection replaced by the DTO's roles, everything else kept. */
  function Copied(dto: UserDto, entity: User): User {
    entity.(firstName := dto.firstName, lastName := dto.lastName, email := dto.email,
            roles := Distinct(RoleIds(dto.roles)))
  }

  /** copyDtoToEntity: sets the names and the email, clears the role collection and
      adds the role of every RoleDTO in turn. */
  method CopyDtoToEntity(dto: UserDto, entity: User) returns (updated: User)
    ensures updated == Copied(dto, entity)
    ensures updated.firstName == dto.firstName && updated.lastName == dto.lastName && updated.email == dto.email
    ensures updated.password == entity.password
    ensures forall id :: id in updated.roles <==> exists i :: 0 <= i < |dto.roles| && dto.roles[i].id == id
    ensures NoDuplicates(updated.roles)
  {
    updated := entity.(firstName := dto.firstName, lastName := dto.lastName, email := dto.email);
    updated := updated.(roles := []);
    for i := 0 to |dto.roles|
      invariant updated == Copied(dto.(roles := dto.roles[..i]), entity)
    {
      var role := dto.roles[i].id;
      ghost var before := RoleIds(dto.roles[..i + 1]);
      assert before[..i] == RoleIds(dto.roles[..i]);
      if role !in updated.roles {
        updated := updated.(roles := updated.roles + [role]);
      }
    }
    assert dto.roles[..|dto.roles|] == dto.roles;
    forall id | id in updated.roles ensures exists i :: 0 <= i < |dto.roles| && dto.roles[i].id == id {
      var i :| 0 <= i < |dto.roles| && RoleIds(dto.roles)[i] == id;
    }
  }

  /** new UserDTO(entity): no password. */
  function ToDto(e: Stored<User>): UserDto {
    var rs := e.row.roles;
    UserDto(e.id, e.row.firstName, e.row.lastName, e.row.email, seq(|rs|, i requires 0 <= i < |rs| => RoleDto(rs[i])))
  }

  /** findAllPaged(pageable): the page of the store, each row as its DTO (see Store.Table.MapPage). */
  function FindAllPaged(t: Table<User>, page: nat, size: nat): seq<UserDto>
    requires t.Valid() && size > 0
  {
    t.MapPage(page, size, ToDto)
  }

  /** findById(id): the stored user's DTO, or RosourceNotFoundException "Entity not found". */
  function FindById(t: Table<User>, id: Id): (r: Result<UserDto>)
    ensures r.Ok? <==> id in t.rows
    ensures r.Err? ==> r.error == ResourceNotFound(EntityNotFoundMessage)
    ensures r.Ok? ==> && r.value.id == id
                      && r.value.firstName == t.rows[id].firstName
                      && r.value.lastName == t.rows[id].lastName
                      && r.value.email == t.rows[id].email
                      && RoleIds(r.value.roles) == t.rows[id].roles
  {
    if id in t.rows then
      var r := ToDto(Stored(id, t.rows[id]));
      assert RoleIds(r.roles) == t.rows[id].roles;
      Ok(r)
    else Err(ResourceNotFound(EntityNotFoundMessage))
  }

  /** The ids in ids whose stored user has the given email, in the order of ids. */
  function WithEmail(ids: seq<Id>, rows: map<Id, User>, email: string): (r: seq<Id>)
    ensures forall id :: id in r <==> id in ids && id in rows && rows[id].email == email
    ensures Increasing(ids) ==> Increasing(r)
  {
    if ids == [] then []
    else
      var rest := WithEmail(ids[1..], rows, email);
      assert forall id :: id in ids <==> id == ids[0] || id in ids[1..] by {
        assert ids == [ids[0]] + ids[1..];
      }
      if ids[0] in rows && rows[ids[0]].email == email then
        var r := [ids[0]] + rest;
        assert Increasing(ids) ==> Increasing(r) by {
          if Increasing(ids) {
            forall i, j | 0 <= i < j < |r| ensures r[i] < r[j] {
              assert r[j] == rest[j - 1] && rest[j - 1] in rest;
              var m :| 0 <= m < |ids[1..]| && ids[1..][m] == rest[j - 1];
              assert ids[m + 1] == rest[j - 1];
              if i > 0 {
                assert r[i] == rest[i - 1];
                assert Increasing(ids[1..]);
              }
            }
          }
        }
        r
      else
        assert Increasing(ids) ==> Increasing(ids[1..]);
        rest
  }

  /** A stored user has this email. */
  predicate HasEmail(t: Table<User>, id: Id, email: string) {
    id in t.rows && t.rows[id].email == email
  }

  /** A list holding exactly the ids of the stored users with that email is empty
      exactly when no stored user has it. */
  lemma NoMatchIffNoUser(t: Table<User>, email: string, m: seq<Id>)
    requires forall id :: id in m <==> HasEmail(t, id, email)
    ensures |m| == 0 <==> forall id :: id in t.rows ==> t.rows[id].email != email
  {
    if |m| == 0 {
      forall id | id in t.rows ensures t.rows[id].email != email {
        assert id !in m;
        assert !HasEmail(t, id, email);
      }
    } else {
      assert m[0] in m && HasEmail(t, m[0], email);
    }
  }

  /** Such a list, strictly increasing, holds two or more ids exactly when two
      distinct stored users have that email. */
  lemma SeveralMatchesIffTwoUsers(t: Table<User>, email: string, m: seq<Id>)
    requires forall id :: id in m <==> HasEmail(t, id, email)
    requires Increasing(m)
    ensures |m| >= 2 <==> exists a, b :: HasEmail(t, a, email) && HasEmail(t, b, email) && a != b
  {
    if |m| >= 2 {
      assert m[0] in m && m[1] in m;
    }
    if exists a, b :: HasEmail(t, a, email) && HasEmail(t, b, email) && a != b {
      var a, b :| HasEmail(t, a, email) && HasEmail(t, b, email) && a != b;
      assert a in m && b in m;
    }
  }

  /** userRepository.findByEmail(email), a single-result derived query: null when no
      user has the email, that user when exactly one has it, and
      IncorrectResultSizeDataAccessException, expecting one result, when two or more
      users have it. */
  function FindByEmail(t: Table<User>, email: string): (r: Result<Option<Stored<User>>>)
    requires t.Valid()
    ensures r == Ok(None) <==> forall id :: id in t.rows ==> t.rows[id].email != email
    ensures r.Ok? && r.value.Some? <==>
              && (exists id :: HasEmail(t, id, email))
              && (forall a, b :: HasEmail(t, a, email) && HasEmail(t, b, email) ==> a == b)
    ensures r.Ok? && r.value.Some? ==> HasEmail(t, r.value.value.id, email) && r.value.value.row == t.rows[r.value.value.id]
    ensures r.Err? <==> exists a, b :: HasEmail(t, a, email) && HasEmail(t, b, email) && a != b
    ensures r.Err? ==> r.error.IncorrectResultSize? && r.error.expectedSize == 1
  {
    var matches := WithEmail(t.order, t.rows, email);
    NoMatchIffNoUser(t, email, matches);
    SeveralMatchesIffTwoUsers(t, email, matches);
    if |matches| == 0 then Ok(None)
    else if |matches| == 1 then
      assert matches[0] in matches;
      Ok(Some(Stored(matches[0], t.rows[matches[0]])))
    else Err(IncorrectResultSize(1))
  }

  /** loadUserByUsername(username): the stored user whose email is username;
      UsernameNotFoundException "Email not found" when there is none; the query's
      IncorrectResultSizeDataAccessException, uncaught, when there are several. */
  function LoadUserByUsername(t: Table<User>, username: string): (r: Result<Stored<User>>)
    requires t.Valid()
    ensures r.Ok? <==>
              && (exists id :: HasEmail(t, id, username))
              && (forall a, b :: HasEmail(t, a, username) && HasEmail(t, b, username) ==> a == b)
    ensures r.Ok? ==> HasEmail(t, r.value.id, username) && t.rows[r.value.id] == r.value.row
    ensures r == Err(UsernameNotFound(EmailNotFoundMessage)) <==> forall id :: id in t.rows ==> t.rows[id].email != username
    ensures r.Err? && r.error.IncorrectResultSize? <==> exists a, b :: HasEmail(t, a, username) && HasEmail(t, b, username) && a != b
  {
    match FindByEmail(t, username)
    case Ok(Some(user)) => Ok(user)
    case Ok(None) => Err(UsernameNotFound(EmailNotFoundMessage))
    case Err(e) => Err(e)
  }

  /** Insert, then find by the returned id: the DTO that comes back carries the
      submitted names, email and roles (each role once). */
  lemma InsertThenFindById(t: Table<User>, dto: UserInsertDto, encode: string -> string)
    requires t.Valid()
    ensures var (t', id) := t.Insert(Copied(dto.user, Blank).(password := encode(dto.password)));
      && id !in t.rows
      && FindById(t', id).Ok?
      && FindById(t', id).value.firstName == dto.user.firstName
      && FindById(t', id).value.lastName == dto.user.lastName
      && FindById(t', id).value.email == dto.user.email
      && RoleIds(FindById(t', id).value.roles) == Distinct(RoleIds(dto.user.roles))
      && t'.rows[id].password == encode(dto.password)
  {
  }

  /** The role collection after an update depends on the DTO alone: whatever roles
      the user had before, the same DTO gives the same roles. */
  lemma RolesReplacedWholesale(dto: UserDto, a: User, b: User)
    ensures Copied(dto, a).roles == Copied(dto, b).roles
    ensures forall id :: id in a.roles && id !in RoleIds(dto.roles) ==> id !in Copied(dto, a).roles
  {
  }

  class UserService {
    const repository: Repository<User>
    /** The password encoder (BCrypt), an opaque function. */
    const encode: string -> string

    constructor (repository: Repository<User>, encode: string -> string)
      ensures this.repository == repository && this.encode == encode
    {
      this.repository := repository;
      this.encode := encode;
    }

    /** insert(dto): one new row holding dto's fields and roles and the encoded
        password, never the raw one, under an id that was free. */
    method Insert(dto: UserInsertDto) returns (r: UserDto)
      requires repository.Valid()
      modifies repository
      ensures repository.Valid()
      ensures var created := Copied(dto.user, Blank).(password := encode(dto.password));
        && (repository.State(), r.id) == old(repository.State()).Insert(created)
        && r == ToDto(Stored(r.id, created))
      ensures r.id !in old(repository.rows) && |repository.rows| == |old(repository.rows)| + 1
      ensures repository.rows[r.id].password == encode(dto.password)
    {
      var entity := CopyDtoToEntity(dto.user, Blank);
      entity := entity.(password := encode(dto.password));
      var id := repository.Save(None, entity);
      r := ToDto(Stored(id, entity));
    }

    /** update(id, dto): on a stored id the names, email and roles are replaced and
        the password is kept; otherwise RosourceNotFoundException "Id not found <id>"
        and nothing changes. */
    method Update(id: Id, dto: UserDto) returns (r: Result<UserDto>)
      requires repository.Valid()
      modifies repository
      ensures repository.Valid()
      ensures id !in old(repository.rows) ==>
                && r == Err(ResourceNotFound(IdNotFound(id)))
                && repository.State() == old(repository.State())
      ensures id in old(repository.rows) ==>
                var updated := Copied(dto, old(repository.rows[id]));
                && repository.State() == old(repository.State()).Put(id, updated)
                && r == Ok(ToDto(Stored(id, updated)))
                && repository.rows[id].password == old(repository.rows[id].password)
    {
      var reference := repository.GetReferenceById(id);
      match reference
      case None =>
        r := Err(ResourceNotFound(IdNotFound(id)));
      case Some(entity) =>
        entity := CopyDtoToEntity(dto, entity);
        var saved := repository.Save(Some(id), entity);
        r := Ok(ToDto(Stored(saved, entity)));
    }

    /** delete(id): the same three outcomes as for products. */
    method Delete(id: Id) returns (r: Result<()>)
      requires repository.Valid()
      modifies repository
      ensures repository.Valid()
      ensures repository.State() == old(repository.State()).Delete(id).0
      ensures r == TranslateDelete(id, old(repository.State()).Delete(id).1)
      ensures id !in old(repository.rows) ==>
                r == Err(ResourceNotFound(IdNotFound(id))) && repository.State() == old(repository.State())
      ensures id in old(repository.rows) && id in old(repository.referenced) ==>
                r == Err(Database(IntegrityViolationMessage)) && repository.State() == old(repository.State())
      ensures id in old(repository.rows) && id !in old(repository.referenced) ==>
                r == Ok(()) && repository.rows == old(repository.rows) - {id}
                && |repository.rows| == |old(repository.rows)| - 1
    {
      var outcome := repository.DeleteById(id);
      r := TranslateDelete(id, outcome);
    }
  }
}
