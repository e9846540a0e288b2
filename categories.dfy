/**
 * CategoryService: a read-only listing and lookup over the category store.
 * Both operations are functions of the store's state; neither changes it.
 */
module Categories {
  import opened Values
  import opened Errors
  import opened Store

  datatype Category = Category(name: string)

  datatype CategoryDto = CategoryDto(id: Id, name: string)

  /** new CategoryDTO(entity) */
  function ToDto(c: Stored<Category>): CategoryDto {
    CategoryDto(c.id, c.row.name)
  }

  /** findAll(): one DTO per stored category, in the store's order. */
  function FindAll(t: Table<Category>): (r: seq<CategoryDto>)
    requires t.Valid()
    ensures |r| == t.Count()
    ensures forall k :: 0 <= k < |r| ==> r[k] == ToDto(t.Entries()[k])
  {
    var es := t.Entries();
    seq(|es|, k requires 0 <= k < |es| => ToDto(es[k]))
  }

  /** findById(id): the category's DTO, or services.exceptions.EntityNotFoundException
      "Entity not found" when the id is not stored. */
  function FindById(t: Table<Category>, id: Id): (r: Result<CategoryDto>)
    ensures r.Ok? <==> id in t.rows
    ensures r.Ok? ==> r.value == CategoryDto(id, t.rows[id].name)
    ensures r.Err? ==> r.error == EntityNotFound(EntityNotFoundMessage)
  {
    if id in t.rows then Ok(ToDto(Stored(id, t.rows[id]))) else Err(EntityNotFound(EntityNotFoundMessage))
  }

  /** The two operations agree: a category found by id is in the full listing,
      and every listed category is found by its id. */
  lemma FindByIdAgreesWithFindAll(t: Table<Category>, id: Id)
    requires t.Valid()
    ensures FindById(t, id).Ok? ==> FindById(t, id).value in FindAll(t)
    ensures forall c :: c in FindAll(t) ==> FindById(t, c.id) == Ok(c)
  {
    var r, es := FindAll(t), t.Entries();
    if id in t.rows {
      var k :| 0 <= k < |es| && es[k] == Stored(id, t.rows[id]);
      assert r[k] == FindById(t, id).value;
    }
    forall c | c in r ensures FindById(t, c.id) == Ok(c) {
      var k :| 0 <= k < |r| && r[k] == c;
      assert c == ToDto(t.Entries()[k]);
    }
  }
}
