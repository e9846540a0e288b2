/**
 * ProductService. The reads (findAllPaged, findById) are functions of the
 * product store's state; insert, update and delete change the store and are
 * methods of the service, each tied to the Table operation it performs.
 */
module Products {
  import opened Values
  import opened Errors
  import opened Store
  import Categories

  /** A product row. A field the service never sets on a new product is None (Java null). */
  datatype Product = Product(
    name: string,
    description: Option<string>,
    price: Option<real>,
    imgUrl: Option<string>,
    date: Option<Instant>,
    categories: seq<Stored<Categories.Category>>)

  datatype ProductDto = ProductDto(
    id: Id,
    name: string,
    description: Option<string>,
    price: Option<real>,
    imgUrl: Option<string>,
    date: Option<Instant>,
    categories: seq<Categories.CategoryDto>)

  /** new ProductDTO(entity): the product's own fields, no categories. */
  function ToDto(e: Stored<Product>): ProductDto {
    ProductDto(e.id, e.row.name, e.row.description, e.row.price, e.row.imgUrl, e.row.date, [])
  }

  /** new ProductDTO(entity, entity.getCategories()): the product's fields and its categories. */
  function ToDtoWithCategories(e: Stored<Product>): ProductDto {
    var cs := e.row.categories;
    ToDto(e).(categories := seq(|cs|, i requires 0 <= i < |cs| => Categories.ToDto(cs[i])))
  }

  /** new Product() with only the name set. */
  function NewProduct(name: string): Product {
    Product(name, None, None, None, None, [])
  }

  /** findAllPaged(PageRequest.of(page, size)): the page of the store, each row as its DTO (see Store.Table.MapPage). */
  function FindAllPaged(t: Table<Product>, page: nat, size: nat): seq<ProductDto>
    requires t.Valid() && size > 0
  {
    t.MapPage(page, size, ToDto)
  }

  /** With 25 stored products, page 0 of size 10 holds 10 of them and page 50 holds none. */
  lemma PagingExample(t: Table<Product>)
    requires t.Valid() && t.Count() == 25
    ensures |FindAllPaged(t, 0, 10)| == 10
    ensures FindAllPaged(t, 50, 10) == []
  {
  }

  /** findById(id): the stored product with its categories, or
      RosourceNotFoundException "Entity not found". */
  function FindById(t: Table<Product>, id: Id): (r: Result<ProductDto>)
    ensures r.Ok? <==> id in t.rows
    ensures r.Err? ==> r.error == ResourceNotFound(EntityNotFoundMessage)
    ensures r.Ok? ==> && r.value.id == id
                      && r.value.name == t.rows[id].name
                      && r.value.description == t.rows[id].description
                      && r.value.price == t.rows[id].price
                      && r.value.imgUrl == t.rows[id].imgUrl
                      && r.value.date == t.rows[id].date
                      && |r.value.categories| == |t.rows[id].categories|
                      && forall i :: 0 <= i < |r.value.categories| ==>
                           r.value.categories[i] == Categories.ToDto(t.rows[id].categories[i])
  {
    if id in t.rows then Ok(ToDtoWithCategories(Stored(id, t.rows[id])))
    else Err(ResourceNotFound(EntityNotFoundMessage))
  }

  /** Insert, then find by the returned id: the same DTO comes back. */
  lemma InsertThenFindById(t: Table<Product>, name: string)
    requires t.Valid()
    ensures var (t', id) := t.Insert(NewProduct(name));
      && id !in t.rows
      && FindById(t', id) == Ok(ToDto(Stored(id, NewProduct(name))))
  {
    var (t', id) := t.Insert(NewProduct(name));
    assert ToDtoWithCategories(Stored(id, NewProduct(name))) == ToDto(Stored(id, NewProduct(name)));
  }

  /** An update changes only the product's name: findById afterwards returns what it
      returned before, with the new name. */
  lemma UpdateChangesOnlyName(t: Table<Product>, id: Id, name: string)
    requires t.Valid() && id in t.rows
    ensures FindById(t.Put(id, t.rows[id].(name := name)), id) == Ok(FindById(t, id).value.(name := name))
    ensures forall k :: k != id ==> FindById(t.Put(id, t.rows[id].(name := name)), k) == FindById(t, k)
  {
  }

  /** A deleted product can no longer be found, and the store holds one row fewer. */
  lemma DeleteThenFindById(t: Table<Product>, id: Id)
    requires t.Valid() && id in t.rows && id !in t.referenced
    ensures t.Delete(id).1 == Deleted
    ensures t.Delete(id).0.Count() == t.Count() - 1
    ensures FindById(t.Delete(id).0, id) == Err(ResourceNotFound(EntityNotFoundMessage))
  {
  }

  class ProductService {
    const repository: Repository<Product>

    constructor (repository: Repository<Product>)
      ensures this.repository == repository
    {
      this.repository := repository;
    }

    /** insert(dto): a new row holding only dto's name, under an id that was free;
        the store grows by exactly one row. */
    method Insert(dto: ProductDto) returns (r: ProductDto)
      requires repository.Valid()
      modifies repository
      ensures repository.Valid()
      ensures (repository.State(), r.id) == old(repository.State()).Insert(NewProduct(dto.name))
      ensures r.id !in old(repository.rows) && |repository.rows| == |old(repository.rows)| + 1
      ensures r == ToDto(Stored(r.id, NewProduct(dto.name)))
    {
      var entity := NewProduct(dto.name);
      var id := repository.Save(None, entity);
      r := ToDto(Stored(id, entity));
    }

    /** update(id, dto): on a stored id only the name is overwritten; otherwise
        RosourceNotFoundException "Id not found <id>" and nothing changes. */
    method Update(id: Id, dto: ProductDto) returns (r: Result<ProductDto>)
      requires repository.Valid()
      modifies repository
      ensures repository.Valid()
      ensures id !in old(repository.rows) ==>
                && r == Err(ResourceNotFound(IdNotFound(id)))
                && repository.State() == old(repository.State())
      ensures id in old(repository.rows) ==>
                var updated := old(repository.rows[id]).(name := dto.name);
                && repository.State() == old(repository.State()).Put(id, updated)
                && r == Ok(ToDto(Stored(id, updated)))
    {
      var reference := repository.GetReferenceById(id);
      match reference
      case None =>
        r := Err(ResourceNotFound(IdNotFound(id)));
      case Some(entity) =>
        entity := entity.(name := dto.name);
        var saved := repository.Save(Some(id), entity);
        r := Ok(ToDto(Stored(saved, entity)));
    }

    /** delete(id): removes an unreferenced stored row; a missing id gives
        RosourceNotFoundException "Id not found <id>", a referenced one
        DatabaseException "Integrity violation", and in both cases nothing changes. */
    method Delete(id: Id) returns (r: Result<()>)
      requires repository.Valid()
      modifies repository
      ensures repository.Valid()
      ensures repository.State() == old(repository.State()).Delete(id).0
      ensures r == TranslateDelete(id, old(repository.State()).Delete(id).1)
      ensures id !in old(repository.rows) ==>
                r == Err(ResourceNotFound(IdNotFound(id))) && repository.State() == old(repository.State())
      ensures id in old(repository.rows) && id in old(repository.referenced) ==>
                r == Err(Database(IntegrityViolationMessage)) && repository.State() == old(repository.State())
      ensures id in old(repository.rows) && id !in old(repository.referenced) ==>
                r == Ok(()) && repository.rows == old(repository.rows) - {id}
                && |repository.rows| == |old(repository.rows)| - 1
    {
      var outcome := repository.DeleteById(id);
      r := TranslateDelete(id, outcome);
    }
  }
}
