/** The product catalogue (`ProductsService`): create, look up by id or by
    name, and remove, over a store mapping product id to product record. */
module Products {
  import opened Common

  type Id = string

  datatype Product = Product(id: Id, name: string, quantity: int)

  /** The request body of `create`; the store assigns the id. */
  datatype CreateProductDto = CreateProductDto(name: string, quantity: int)

  type ProductStore = map<Id, Product>

  const NameInUseMessage := "Name already in use"
  const NotFoundMessage := "Product was not found"

  /** Some stored product carries exactly this name. */
  ghost predicate NameInUse(store: ProductStore, name: string) {
    exists id :: id in store && store[id].name == name
  }

  /** Every record sits under its own id. */
  predicate KeyedById(store: ProductStore) {
    forall id :: id in store ==> store[id].id == id
  }

  /** No two products share a name. */
  predicate NamesUnique(store: ProductStore) {
    forall i, j :: i in store && j in store && store[i].name == store[j].name ==> i == j
  }

  /** The catalogue invariant. */
  predicate Valid(store: ProductStore) {
    KeyedById(store) && NamesUnique(store)
  }

  /** `findOne(id)`: the record stored under `id`, or absent; read-only. */
  function FindOne(store: ProductStore, id: Id): (r: Response<Option<Product>, ProductStore>)
    ensures r.state == store
    ensures r.result.Success?
    ensures r.result.value.Some? <==> id in store
    ensures r.result.value.Some? ==> r.result.value.value == store[id]
  {
    Response(Success(if id in store then Some(store[id]) else None), store)
  }

  /** `findOneByName(name)`: a record whose name is exactly `name`, or absent;
      read-only. Which record is left open when names are not unique. */
  ghost function FindOneByName(store: ProductStore, name: string): (r: Response<Option<Product>, ProductStore>)
    ensures r.state == store
    ensures r.result.Success?
    ensures r.result.value.Some? <==> NameInUse(store, name)
    ensures r.result.value.Some? ==> r.result.value.value in store.Values && r.result.value.value.name == name
  {
    if NameInUse(store, name) then
      var id :| id in store && store[id].name == name;
      Response(Success(Some(store[id])), store)
    else
      Response(Success(None), store)
  }

  /** `create(dto)`: rejects a name already in use, otherwise stores a new
      record under the store-assigned `freshId` and returns it. */
  ghost function Create(store: ProductStore, dto: CreateProductDto, freshId: Id): (r: Response<Product, ProductStore>)
    requires freshId !in store
    ensures r.result.Failure? <==> NameInUse(store, dto.name)
    ensures r.result.Failure? ==> r.result.error == Conflict(NameInUseMessage) && r.state == store
    ensures r.result.Success? ==>
              && r.result.value == Product(freshId, dto.name, dto.quantity)
              && r.state.Keys == store.Keys + {freshId}
              && r.state[freshId] == r.result.value
              && (forall id :: id in store ==> r.state[id] == store[id])
    ensures |r.state| == |store| + (if r.result.Success? then 1 else 0)
    ensures Valid(store) ==> Valid(r.state)
  {
    var existing := FindOneByName(store, dto.name).result.value;
    if existing.Some? then
      Response(Failure(Conflict(NameInUseMessage)), store)
    else
      var product := Product(freshId, dto.name, dto.quantity);
      Response(Success(product), store[freshId := product])
  }

  /** `remove(id)`: NotFound when nothing is stored under `id`, otherwise
      deletes that one record. */
  function Remove(store: ProductStore, id: Id): (r: Response<(), ProductStore>)
    ensures r.result.Failure? <==> id !in store
    ensures r.result.Failure? ==> r.result.error == NotFound(NotFoundMessage) && r.state == store
    ensures r.result.Success? ==>
              && r.state.Keys == store.Keys - {id}
              && (forall k :: k in r.state ==> r.state[k] == store[k])
    ensures |r.state| == |store| - (if r.result.Success? then 1 else 0)
    ensures Valid(store) ==> Valid(r.state)
  {
    var found := FindOne(store, id).result.value;
    if found.None? then
      Response(Failure(NotFound(NotFoundMessage)), store)
    else
      Response(Success(()), store - {id})
  }

  /** A product created with a fresh name is found under its new id. */
  lemma CreateThenFindOne(store: ProductStore, dto: CreateProductDto, freshId: Id)
    requires freshId !in store
    requires !NameInUse(store, dto.name)
    ensures Create(store, dto, freshId).result == Success(Product(freshId, dto.name, dto.quantity))
    ensures FindOne(Create(store, dto, freshId).state, freshId).result
            == Success(Some(Product(freshId, dto.name, dto.quantity)))
  {
  }

  /** When names are unique the lookup by name is determined: it returns the
      one record carrying that name. */
  lemma FindOneByNameUnique(store: ProductStore, id: Id)
    requires NamesUnique(store)
    requires id in store
    ensures FindOneByName(store, store[id].name).result == Success(Some(store[id]))
  {
  }

  /** A product created in a valid catalogue is then found by its name. */
  lemma CreateThenFindOneByName(store: ProductStore, dto: CreateProductDto, freshId: Id)
    requires Valid(store)
    requires freshId !in store
    requires !NameInUse(store, dto.name)
    ensures FindOneByName(Create(store, dto, freshId).state, dto.name).result
            == Success(Some(Product(freshId, dto.name, dto.quantity)))
  {
  }

  /** After a successful remove the id is no longer found. */
  lemma RemoveThenFindOne(store: ProductStore, id: Id)
    requires id in store
    ensures Remove(store, id).result == Success(())
    ensures FindOne(Remove(store, id).state, id).result == Success(None)
  {
  }

  /** Removing a product just created restores the catalogue exactly. */
  lemma CreateThenRemove(store: ProductStore, dto: CreateProductDto, freshId: Id)
    requires freshId !in store
    requires !NameInUse(store, dto.name)
    ensures Remove(Create(store, dto, freshId).state, freshId).state == store
  {
  }

  /** One request to the catalogue; a create carries the id the store assigns. */
  datatype Request =
    | CreateRequest(dto: CreateProductDto, freshId: Id)
    | RemoveRequest(id: Id)

  /** The store can serve the request: an assigned id is not yet taken. */
  predicate Enabled(store: ProductStore, req: Request) {
    req.CreateRequest? ==> req.freshId !in store
  }

  ghost function Apply(store: ProductStore, req: Request): ProductStore
    requires Enabled(store, req)
  {
    match req
    case CreateRequest(dto, freshId) => Create(store, dto, freshId).state
    case RemoveRequest(id) => Remove(store, id).state
  }

  /** Every request of the sequence is enabled when it is reached. */
  ghost predicate Runnable(store: ProductStore, reqs: seq<Request>)
    decreases |reqs|
  {
    |reqs| == 0 || (Enabled(store, reqs[0]) && Runnable(Apply(store, reqs[0]), reqs[1..]))
  }

  /** The store after serving the requests one after another; failed
      requests leave it as it was. */
  ghost function Run(store: ProductStore, reqs: seq<Request>): ProductStore
    requires Runnable(store, reqs)
    decreases |reqs|
  {
    if |reqs| == 0 then store else Run(Apply(store, reqs[0]), reqs[1..])
  }

  /** No sequence of creates and removes ever lets two products share a name. */
  lemma {:induction false} RunPreservesValid(store: ProductStore, reqs: seq<Request>)
    requires Valid(store)
    requires Runnable(store, reqs)
    ensures Valid(Run(store, reqs))
    decreases |reqs|
  {
    if |reqs| > 0 {
      RunPreservesValid(Apply(store, reqs[0]), reqs[1..]);
    }
  }
}
