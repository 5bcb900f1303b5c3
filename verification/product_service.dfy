/**
 * ProductService. As for franchises and branches: every operation answers with
 * the envelope and turns a store failure (`fault`) into an error without
 * writing anything; reads are functions of the store's contents, writes are
 * methods of the service class proved against a function from the old tables
 * to the new ones and the response. A product's name is unique within its
 * branch; no length limit on product names is part of this model.
 */
module ProductServices {
  import opened Dto
  import opened Entities
  import ProductQueries
  import Persistence

  /** `IndexProducts`: the product index of branch `bid`; an unknown branch is not an error. */
  function IndexProducts(t: Tables, bid: int, fault: bool): (r: ApiResponse<set<ProductListDTO>>)
    ensures r.success <==> !fault
    ensures r.success <==> r.data.Some?
  {
    if fault then Error(StorageFailure) else Success(Done, ProductQueries.IndexProduct(t, bid))
  }

  /** `SearchById`: one product as a ProductDTO. */
  function SearchById(t: Tables, id: int, fault: bool): (r: ApiResponse<ProductDTO>)
    ensures r.success <==> !fault && id in t.products
    ensures r.success <==> r.data.Some?
    ensures r.success ==> r.data.value.id == id
  {
    if fault then Error(StorageFailure)
    else if id !in t.products then Error(NotFound)
    else Success(Done, ProductDTO(id, t.products[id].name, t.products[id].stock, t.products[id].branchId))
  }

  /**
   * `CreateProduct`: the name check within the branch first, then the branch's
   * existence, then `save` under the id `newId` that the IDENTITY column hands out.
   */
  function CreateOutcome(t: Tables, newId: int, dto: ProductDTO, fault: bool): (o: (Tables, ApiResponse<ProductDTO>))
    ensures o.1.success <==> o.1.data.Some?
    ensures !o.1.success ==> o.0 == t
    ensures o.1.success ==>
      && dto.branchId in t.branches && o.1.data.value.id == newId
      && o.0.products.Keys == t.products.Keys + {newId}
      && o.0.franchises == t.franchises && o.0.branches == t.branches
  {
    var clash := ProductQueries.FindByName(t, dto.branchId, dto.name);
    if fault then (t, Error(StorageFailure))
    else if clash != {} then (t, Error(ClashMessage(clash)))
    else if dto.branchId !in t.branches then (t, Error(ParentNotFound))
    else
      (t.(products := t.products[newId := Product(dto.name, dto.stock, dto.branchId)]),
       Success(Done, ProductDTO(newId, dto.name, dto.stock, dto.branchId)))
  }

  /**
   * `UpdateProduct`: existence, the name check within the TARGET branch
   * excluding itself, the target branch's existence, then `save` of the new name,
   * stock and branch.
   */
  function UpdateOutcome(t: Tables, id: int, dto: ProductDTO, fault: bool): (o: (Tables, ApiResponse<ProductDTO>))
    ensures o.1.success <==> o.1.data.Some?
    ensures !o.1.success ==> o.0 == t
    ensures o.1.success ==>
      && id in t.products && dto.branchId in t.branches && o.1.data.value.id == id
      && o.0.products.Keys == t.products.Keys
      && o.0.franchises == t.franchises && o.0.branches == t.branches
  {
    if fault then (t, Error(StorageFailure))
    else if id !in t.products then (t, Error(NotFound))
    else
      var clash := ProductQueries.FindByNameId(t, dto.branchId, dto.name, id);
      if clash != {} then (t, Error(ClashMessage(clash)))
      else if dto.branchId !in t.branches then (t, Error(ParentNotFound))
      else
        (t.(products := t.products[id := Product(dto.name, dto.stock, dto.branchId)]),
         Success(Done, ProductDTO(id, dto.name, dto.stock, dto.branchId)))
  }

  /** `DeleteProduct`: existence, then `delete` of that one row. */
  function DeleteOutcome(t: Tables, id: int, fault: bool): (o: (Tables, ApiResponse<ProductDTO>))
    ensures o.1.success <==> o.1.data.Some?
    ensures !o.1.success ==> o.0 == t
    ensures o.1.success ==>
      id in t.products && id !in o.0.products && o.0.branches == t.branches && o.1.data.value.id == id
  {
    if fault then (t, Error(StorageFailure))
    else if id !in t.products then (t, Error(NotFound))
    else
      (DeleteProductRow(t, id),
       Success(Done, ProductDTO(id, t.products[id].name, t.products[id].stock, t.products[id].branchId)))
  }

  /** With unique names a clash is always reported as a duplicate. */
  lemma ClashIsDuplicate(t: Tables, bid: int, name: string, id: int)
    requires NamesUnique(t)
    ensures ProductQueries.FindByName(t, bid, name) != {} ==>
      ClashMessage(ProductQueries.FindByName(t, bid, name)) == DuplicateName
    ensures ProductQueries.FindByNameId(t, bid, name, id) != {} ==>
      ClashMessage(ProductQueries.FindByNameId(t, bid, name, id)) == DuplicateName
  {
    ProductQueries.FindByNameMatches(t, bid, name);
    SingleClashIsDuplicate(ProductQueries.FindByName(t, bid, name));
    ProductQueries.FindByNameIdExcludesSelf(t, bid, name, id);
    SingleClashIsDuplicate(ProductQueries.FindByNameId(t, bid, name, id));
  }

  /**
   * A product is found by id exactly when it exists, and then the index of its
   * branch lists it with the same name and stock; the index itself never reports
   * an unknown branch, it answers an empty list.
   */
  lemma SearchByIdAgreesWithIndex(t: Tables, id: int, bid: int, fault: bool)
    requires Integrity(t)
    ensures SearchById(t, id, fault).success <==> !fault && id in t.products
    ensures !SearchById(t, id, fault).success ==>
      SearchById(t, id, fault) == Error(if fault then StorageFailure else NotFound)
    ensures SearchById(t, id, fault).success ==>
      var d := SearchById(t, id, fault).data.value;
      exists r :: r in ProductQueries.IndexProduct(t, d.branchId) && r.id == id && r.name == d.name && r.stock == d.stock
    ensures IndexProducts(t, bid, fault).success <==> !fault
    ensures !fault && bid !in t.branches ==> IndexProducts(t, bid, fault) == Success(Done, {})
  {
    if !fault && id in t.products {
      var g := t.products[id].branchId;
      assert ProductListDTO(id, t.products[id].name, t.products[id].stock, t.branches[g].name) in ProductQueries.IndexProduct(t, g);
    }
    ProductQueries.IndexProductOneRowPerProduct(t, bid);
  }

  /**
   * Creating a product succeeds exactly when the store works, the branch has no
   * product with the same name up to case, and the branch exists; otherwise
   * nothing is written and the response says why, the duplicate being reported
   * before the missing branch.
   */
  lemma CreateDecision(t: Tables, newId: int, dto: ProductDTO, fault: bool)
    requires NamesUnique(t)
    ensures var o := CreateOutcome(t, newId, dto, fault);
      && (o.1.success <==>
            && !fault
            && (forall p :: p in t.products && t.products[p].branchId == dto.branchId ==>
                  !SameName(t.products[p].name, dto.name))
            && dto.branchId in t.branches)
      && (!o.1.success ==> o.0 == t && o.1 == Error(
            if fault then StorageFailure
            else if (exists p :: p in t.products && t.products[p].branchId == dto.branchId &&
                                 SameName(t.products[p].name, dto.name)) then DuplicateName
            else ParentNotFound))
  {
    ClashIsDuplicate(t, dto.branchId, dto.name, newId);
    if exists p :: p in t.products && t.products[p].branchId == dto.branchId && SameName(t.products[p].name, dto.name) {
      var p :| p in t.products && t.products[p].branchId == dto.branchId && SameName(t.products[p].name, dto.name);
      assert p in ProductQueries.FindByName(t, dto.branchId, dto.name);
    }
  }

  /**
   * A created product is stored under the fresh id in its branch with the given
   * stock and nothing else changes; looking it up answers what the creation
   * answered, it is the only product of its branch found under its name, and the
   * branch's index lists it.
   */
  lemma CreateRoundTrip(t: Tables, newId: int, dto: ProductDTO, fault: bool)
    requires newId !in t.products
    ensures var o := CreateOutcome(t, newId, dto, fault);
      o.1.success ==>
        && o.0 == t.(products := t.products[newId := Product(dto.name, dto.stock, dto.branchId)])
        && o.1.data == Some(ProductDTO(newId, dto.name, dto.stock, dto.branchId))
        && SearchById(o.0, newId, false) == o.1
        && ProductQueries.FindByName(o.0, dto.branchId, dto.name) == {newId}
        && ProductListDTO(newId, dto.name, dto.stock, t.branches[dto.branchId].name) in
             ProductQueries.IndexProduct(o.0, dto.branchId)
  {
    var o := CreateOutcome(t, newId, dto, fault);
    if o.1.success {
      var t2 := o.0;
      ProductQueries.FindByNameAfterWrite(t, newId, dto.name, dto.stock, dto.branchId, dto.branchId, dto.name);
      assert ProductListDTO(newId, t2.products[newId].name, t2.products[newId].stock, t2.branches[dto.branchId].name)
        in ProductQueries.IndexProduct(t2, dto.branchId);
    }
  }

  /** Creating a product keeps integrity and name uniqueness. */
  lemma CreateKeepsInvariants(t: Tables, newId: int, dto: ProductDTO, fault: bool)
    requires Integrity(t) && NamesUnique(t)
    ensures Integrity(CreateOutcome(t, newId, dto, fault).0)
    ensures NamesUnique(CreateOutcome(t, newId, dto, fault).0)
  {
    var t2 := CreateOutcome(t, newId, dto, fault).0;
    if t2 != t {
      forall p | p in t.products && p != newId && t.products[p].branchId == dto.branchId
        ensures !SameName(t.products[p].name, dto.name)
      {
        assert p !in ProductQueries.FindByName(t, dto.branchId, dto.name);
      }
    }
  }

  /**
   * Updating a product succeeds exactly when the store works, the product
   * exists, no OTHER product of the target branch has the new name up to case,
   * and the target branch exists; otherwise nothing is written and the response
   * says why.
   */
  lemma UpdateDecision(t: Tables, id: int, dto: ProductDTO, fault: bool)
    requires NamesUnique(t)
    ensures var o := UpdateOutcome(t, id, dto, fault);
      && (o.1.success <==>
            && !fault && id in t.products
            && (forall p :: p in t.products && p != id && t.products[p].branchId == dto.branchId ==>
                  !SameName(t.products[p].name, dto.name))
            && dto.branchId in t.branches)
      && (!o.1.success ==> o.0 == t && o.1 == Error(
            if fault then StorageFailure
            else if id !in t.products then NotFound
            else if (exists p :: p in t.products && p != id && t.products[p].branchId == dto.branchId &&
                                 SameName(t.products[p].name, dto.name)) then DuplicateName
            else ParentNotFound))
  {
    ClashIsDuplicate(t, dto.branchId, dto.name, id);
    if exists p :: p in t.products && p != id && t.products[p].branchId == dto.branchId &&
         SameName(t.products[p].name, dto.name) {
      var p :| p in t.products && p != id && t.products[p].branchId == dto.branchId &&
        SameName(t.products[p].name, dto.name);
      assert p in ProductQueries.FindByNameId(t, dto.branchId, dto.name, id);
    }
  }

  /** Changing only the stock of a product (same name, same branch) always succeeds when the store works. */
  lemma StockChangeSucceeds(t: Tables, id: int, stock: int)
    requires Integrity(t) && NamesUnique(t) && id in t.products
    ensures var p := t.products[id];
      UpdateOutcome(t, id, ProductDTO(id, p.name, stock, p.branchId), false).1.success
  {
    ProductQueries.FindByNameIdExcludesSelf(t, t.products[id].branchId, t.products[id].name, id);
  }

  /**
   * An updated product keeps its id, now belongs to the target branch with the
   * new name and stock, nothing else changes, looking it up answers what the
   * update answered, and it is the only product of that branch found under its name.
   */
  lemma UpdateRoundTrip(t: Tables, id: int, dto: ProductDTO, fault: bool)
    ensures var o := UpdateOutcome(t, id, dto, fault);
      o.1.success ==>
        && o.0.products == t.products[id := Product(dto.name, dto.stock, dto.branchId)]
        && o.0.franchises == t.franchises && o.0.branches == t.branches
        && id in ProductsOf(o.0, dto.branchId)
        && SearchById(o.0, id, false) == o.1
        && ProductQueries.FindByName(o.0, dto.branchId, dto.name) == {id}
  {
    var o := UpdateOutcome(t, id, dto, fault);
    if o.1.success {
      ProductQueries.FindByNameAfterWrite(t, id, dto.name, dto.stock, dto.branchId, dto.branchId, dto.name);
      ProductQueries.FindByNameIdExcludesSelf(t, dto.branchId, dto.name, id);
    }
  }

  /** Updating a product keeps integrity and name uniqueness. */
  lemma UpdateKeepsInvariants(t: Tables, id: int, dto: ProductDTO, fault: bool)
    requires Integrity(t) && NamesUnique(t)
    ensures Integrity(UpdateOutcome(t, id, dto, fault).0)
    ensures NamesUnique(UpdateOutcome(t, id, dto, fault).0)
  {
    var t2 := UpdateOutcome(t, id, dto, fault).0;
    if t2 != t {
      forall p | p in t.products && p != id && t.products[p].branchId == dto.branchId
        ensures !SameName(t.products[p].name, dto.name)
      {
        assert p !in ProductQueries.FindByNameId(t, dto.branchId, dto.name, id);
      }
    }
  }

  /**
   * Deleting a product succeeds exactly when the store works and it exists; it
   * answers the deleted product, which can no longer be found, removes nothing
   * else, and keeps both invariants.
   */
  lemma DeleteEffect(t: Tables, id: int, fault: bool)
    requires Integrity(t) && NamesUnique(t)
    ensures var o := DeleteOutcome(t, id, fault);
      && (o.1.success <==> !fault && id in t.products)
      && (!o.1.success ==> o.0 == t && o.1 == Error(if fault then StorageFailure else NotFound))
      && (o.1.success ==>
            && o.1.data == Some(ProductDTO(id, t.products[id].name, t.products[id].stock, t.products[id].branchId))
            && SearchById(o.0, id, false) == Error(NotFound)
            && o.0.franchises == t.franchises && o.0.branches == t.branches
            && o.0.products.Keys == t.products.Keys - {id})
      && Integrity(o.0) && NamesUnique(o.0)
  {
    CascadesKeepInvariants(t, 0, 0, id);
  }

  class ProductService {
    const store: Persistence.Store

    constructor (store: Persistence.Store)
      ensures this.store == store
    {
      this.store := store;
    }

    /** `CreateProduct`: adds a product with its stock to the DTO's branch. */
    method CreateProduct(dto: ProductDTO, fault: bool) returns (r: ApiResponse<ProductDTO>)
      requires store.Consistent()
      modifies store
      ensures store.Consistent()
      ensures (store.Contents(), r) == CreateOutcome(old(store.Contents()), old(store.nextProductId), dto, fault)
      ensures store.nextProductId == old(store.nextProductId) + (if r.success then 1 else 0)
      ensures store.nextFranchiseId == old(store.nextFranchiseId) && store.nextBranchId == old(store.nextBranchId)
    {
      CreateKeepsInvariants(store.Contents(), store.nextProductId, dto, fault);
      if fault {
        return Error(StorageFailure);
      }
      var clash := ProductQueries.FindByName(store.Contents(), dto.branchId, dto.name);
      if clash != {} {
        return Error(ClashMessage(clash));
      }
      if dto.branchId !in store.branches {
        return Error(ParentNotFound);
      }
      var id := store.InsertProduct(dto.name, dto.stock, dto.branchId);
      r := Success(Done, ProductDTO(id, dto.name, dto.stock, dto.branchId));
    }

    /** `UpdateProduct`: sets the name, stock and branch of product `id`. */
    method UpdateProduct(id: int, dto: ProductDTO, fault: bool) returns (r: ApiResponse<ProductDTO>)
      requires store.Consistent()
      modifies store
      ensures store.Consistent()
      ensures (store.Contents(), r) == UpdateOutcome(old(store.Contents()), id, dto, fault)
      ensures store.nextFranchiseId == old(store.nextFranchiseId)
      ensures store.nextBranchId == old(store.nextBranchId) && store.nextProductId == old(store.nextProductId)
    {
      UpdateKeepsInvariants(store.Contents(), id, dto, fault);
      if fault {
        return Error(StorageFailure);
      }
      if id !in store.products {
        return Error(NotFound);
      }
      var clash := ProductQueries.FindByNameId(store.Contents(), dto.branchId, dto.name, id);
      if clash != {} {
        return Error(ClashMessage(clash));
      }
      if dto.branchId !in store.branches {
        return Error(ParentNotFound);
      }
      store.UpdateProduct(id, dto.name, dto.stock, dto.branchId);
      r := Success(Done, ProductDTO(id, dto.name, dto.stock, dto.branchId));
    }

    /** `DeleteProduct`: removes product `id`. */
    method DeleteProduct(id: int, fault: bool) returns (r: ApiResponse<ProductDTO>)
      requires store.Consistent()
      modifies store
      ensures store.Consistent()
      ensures (store.Contents(), r) == DeleteOutcome(old(store.Contents()), id, fault)
      ensures store.nextFranchiseId == old(store.nextFranchiseId)
      ensures store.nextBranchId == old(store.nextBranchId) && store.nextProductId == old(store.nextProductId)
    {
      if fault {
        return Error(StorageFailure);
      }
      if id !in store.products {
        return Error(NotFound);
      }
      CascadesKeepInvariants(store.Contents(), 0, 0, id);
      var p := store.products[id];
      store.DeleteProduct(id);
      r := Success(Done, ProductDTO(id, p.name, p.stock, p.branchId));
    }
  }
}
