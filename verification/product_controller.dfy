/**
 * `ProductsController`: the product actions over the product table. Each
 * action's policy is in the pipeline's endpoint table.
 */
module ProductController {
  import opened Wrappers
  import opened Store
  import opened Actions
  import Repo = ProductRepository
  import ProductDto

  /** `ProductReadDTO`. */
  datatype ProductRead = ProductRead(id: int, name: string, description: Option<string>, price: int, quantity: int)

  /** `ProductUpdateDTO`; its annotations are not part of this model, so its model-state errors are a parameter. */
  datatype ProductUpdate = ProductUpdate(id: int, name: string, description: Option<string>, price: int, quantity: int)

  function ToRead(p: Product): (d: ProductRead)
    ensures d.id == p.id && d.name == p.name && d.description == p.description
    ensures d.price == p.price && d.quantity == p.quantity
  {
    ProductRead(p.id, p.name, p.description, p.price, p.quantity)
  }

  /** `GetAllProductsAsync`: one read DTO per product. */
  function GetAll(t: Repo.Table): (r: ActionResult<map<int, ProductRead>>)
    ensures r.Ok? && r.body.Keys == t.Keys
    ensures forall k :: k in t ==> r.body[k] == ToRead(t[k])
  {
    Ok(map k | k in t :: ToRead(t[k]))
  }

  /** `GetProductByIdAsync`. */
  function GetById(t: Repo.Table, id: int): (r: ActionResult<ProductRead>)
    ensures r.NotFound? <==> id !in t
    ensures r.Ok? <==> id in t
    ensures r.Ok? ==> r.body == ToRead(t[id])
  {
    match Repo.GetById(t, id)
    case None => NotFound
    case Some(p) => Ok(ToRead(p))
  }

  /**
   * `CreateProductAsync`: a request that fails validation is refused with its
   * messages before the store is touched; otherwise the product is stored
   * under the id `newId` the database gives it, and echoed back.
   */
  function Create(t: Repo.Table, dto: ProductDto.ProductCreate, newId: int): (r: (ActionResult<ProductRead>, Repo.Table))
    requires newId !in t
    ensures !ProductDto.ValidProductCreate(dto) ==> r.0 == BadRequest(ProductDto.Errors(dto)) && r.1 == t
    ensures ProductDto.ValidProductCreate(dto) ==> r.0.Ok? && newId in r.1 && r.0.body == ToRead(r.1[newId])
    ensures r.0.Ok? ==>
      && r.0.body.id == newId && Some(r.0.body.name) == dto.name && r.0.body.description == dto.description
      && r.0.body.price == dto.price && r.0.body.quantity == dto.quantity
    ensures r.0.Ok? ==> r.1.Keys == t.Keys + {newId} && forall k :: k in t ==> r.1[k] == t[k]
  {
    ProductDto.ErrorsEmptyIffValid(dto);
    if ProductDto.Errors(dto) != [] then (BadRequest(ProductDto.Errors(dto)), t)
    else
      var (t', stored) := Repo.Create(t, Product(0, dto.name.value, dto.description, dto.price, dto.quantity), newId);
      (Ok(ToRead(stored)), t')
  }

  /** `UpdateProductAsync`: validation, then the route id against the body's id, then the store. */
  function Update(t: Repo.Table, id: int, dto: ProductUpdate, modelErrors: seq<string>): (r: (ActionResult<()>, Repo.Table))
    ensures modelErrors != [] ==> r == (BadRequest(modelErrors), t)
    ensures modelErrors == [] && id != dto.id ==> r == (BadRequest(["Product ID mismatch."]), t)
    ensures r.0.NotFound? <==> modelErrors == [] && id == dto.id && id !in t
    ensures modelErrors == [] && id == dto.id && id in t ==> r.0 == NoContent
    ensures r.1.Keys == t.Keys
    ensures r.0.NoContent? ==> id in t && r.1[id] == t[id].(name := dto.name, description := dto.description, price := dto.price, quantity := dto.quantity)
    ensures !r.0.NoContent? ==> r.1 == t
    ensures forall k :: k in t && k != id ==> k in r.1 && r.1[k] == t[k]
  {
    if modelErrors != [] then (BadRequest(modelErrors), t)
    else if id != dto.id then (BadRequest(["Product ID mismatch."]), t)
    else
      var (updated, t') := Repo.Update(t, Product(dto.id, dto.name, dto.description, dto.price, dto.quantity));
      if !updated then (NotFound, t') else (NoContent, t')
  }

  /** `DeleteProductAsync`. */
  function Delete(t: Repo.Table, id: int): (r: (ActionResult<()>, Repo.Table))
    ensures r.0.NotFound? <==> id !in t
    ensures r.0.NotFound? ==> r.1 == t
    ensures r.0.NoContent? ==> r.1 == t - {id}
    ensures r.0.NotFound? || r.0.NoContent?
  {
    var (deleted, t') := Repo.Delete(t, id);
    if !deleted then (NotFound, t) else (NoContent, t')
  }

  /** A product that was not there is reported missing by every action that names it, and nothing changes. */
  lemma MissingProductNotFound(t: Repo.Table, id: int, dto: ProductUpdate)
    requires id !in t && dto.id == id
    ensures GetById(t, id) == NotFound
    ensures Update(t, id, dto, []) == (NotFound, t)
    ensures Delete(t, id) == (NotFound, t)
  {
  }

  /** A successful update is read back as the values sent. */
  lemma UpdateThenGet(t: Repo.Table, dto: ProductUpdate)
    requires Repo.KeyedById(t)
    requires dto.id in t
    ensures Update(t, dto.id, dto, []).0 == NoContent
    ensures GetById(Update(t, dto.id, dto, []).1, dto.id)
         == Ok(ProductRead(dto.id, dto.name, dto.description, dto.price, dto.quantity))
  {
  }
}
