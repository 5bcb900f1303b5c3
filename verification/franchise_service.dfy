/**
 * FranchiseService. Every operation answers with the envelope, and turns any
 * exception of the store (`fault`) into an error response without writing
 * anything. The reads are functions of the store's contents. Each write is a
 * method of the service class, proved against a function that gives the new
 * tables and the response from the old tables.
 */
module FranchiseServices {
  import opened Dto
  import opened Entities
  import FranchiseQueries
  import Persistence

  /** `IndexFranchise`: the franchise index. */
  function IndexFranchise(t: Tables, fault: bool): (r: ApiResponse<set<FranchiseListDTO>>)
    ensures r.success <==> !fault
    ensures r.success <==> r.data.Some?
  {
    if fault then Error(StorageFailure) else Success(Done, FranchiseQueries.IndexFranchise(t))
  }

  /** `SearchFranchiseById`: one franchise as a FranchiseDTO. */
  function SearchFranchiseById(t: Tables, id: int, fault: bool): (r: ApiResponse<FranchiseDTO>)
    ensures r.success <==> !fault && id in t.franchises
    ensures r.success <==> r.data.Some?
    ensures r.success ==> r.data.value.id == id
  {
    if fault then Error(StorageFailure)
    else if id !in t.franchises then Error(NotFound)
    else Success(Done, FranchiseDTO(id, t.franchises[id].name))
  }

  /** `GetBranchMaxProducts`: the top-stock report of an existing franchise. */
  function GetBranchMaxProducts(t: Tables, id: int, fault: bool): (r: ApiResponse<set<BranchMaxProductsListDTO>>)
    ensures r.success <==> !fault && id in t.franchises
    ensures r.success <==> r.data.Some?
  {
    if fault then Error(StorageFailure)
    else if id !in t.franchises then Error(NotFound)
    else Success(Done, FranchiseQueries.SearchBranchesMaxProducts(t, id))
  }

  /**
   * `CreateFrachise` from the old tables: name check first, then `save` under
   * the id `newId` that the IDENTITY column hands out.
   */
  function CreateOutcome(t: Tables, newId: int, name: string, fault: bool): (o: (Tables, ApiResponse<FranchiseDTO>))
    ensures o.1.success <==> o.1.data.Some?
    ensures !o.1.success ==> o.0 == t
    ensures o.1.success ==>
      && o.1.data.value.id == newId && o.0.franchises.Keys == t.franchises.Keys + {newId}
      && o.0.branches == t.branches && o.0.products == t.products
  {
    var clash := FranchiseQueries.SearchName(t, name);
    if fault then (t, Error(StorageFailure))
    else if clash != {} then (t, Error(ClashMessage(clash)))
    else if |name| > MaxNameLength then (t, Error(StorageFailure))
    else (t.(franchises := t.franchises[newId := Franchise(name)]), Success(Done, FranchiseDTO(newId, name)))
  }

  /** `UpdateFranchise` from the old tables: existence, then the name check excluding itself, then `save`. */
  function UpdateOutcome(t: Tables, id: int, name: string, fault: bool): (o: (Tables, ApiResponse<FranchiseDTO>))
    ensures o.1.success <==> o.1.data.Some?
    ensures !o.1.success ==> o.0 == t
    ensures o.1.success ==>
      && id in t.franchises && o.1.data.value.id == id && o.0.franchises.Keys == t.franchises.Keys
      && o.0.branches == t.branches && o.0.products == t.products
  {
    if fault then (t, Error(StorageFailure))
    else if id !in t.franchises then (t, Error(NotFound))
    else
      var clash := FranchiseQueries.SearchNameById(t, name, id);
      if clash != {} then (t, Error(ClashMessage(clash)))
      else if |name| > MaxNameLength then (t, Error(StorageFailure))
      else (t.(franchises := t.franchises[id := Franchise(name)]), Success(Done, FranchiseDTO(id, name)))
  }

  /** `DeleteFranchise` from the old tables: existence, then the cascading `delete`. */
  function DeleteOutcome(t: Tables, id: int, fault: bool): (o: (Tables, ApiResponse<FranchiseDTO>))
    ensures o.1.success <==> o.1.data.Some?
    ensures !o.1.success ==> o.0 == t
    ensures o.1.success ==> id in t.franchises && id !in o.0.franchises && o.1.data.value.id == id
  {
    if fault then (t, Error(StorageFailure))
    else if id !in t.franchises then (t, Error(NotFound))
    else (DeleteFranchiseCascade(t, id), Success(Done, FranchiseDTO(id, t.franchises[id].name)))
  }

  /** With unique names a clash is always reported as a duplicate. */
  lemma ClashIsDuplicate(t: Tables, name: string, id: int)
    requires NamesUnique(t)
    ensures FranchiseQueries.SearchName(t, name) != {} ==> ClashMessage(FranchiseQueries.SearchName(t, name)) == DuplicateName
    ensures FranchiseQueries.SearchNameById(t, name, id) != {} ==>
      ClashMessage(FranchiseQueries.SearchNameById(t, name, id)) == DuplicateName
  {
    FranchiseQueries.SearchNameMatches(t, name);
    SingleClashIsDuplicate(FranchiseQueries.SearchName(t, name));
    FranchiseQueries.SearchNameByIdExcludesSelf(t, name, id);
    SingleClashIsDuplicate(FranchiseQueries.SearchNameById(t, name, id));
  }

  /**
   * A franchise is found by id exactly when the index has a row for it, and the
   * two agree on its name; a read fails only on a store failure or an unknown id.
   */
  lemma SearchByIdAgreesWithIndex(t: Tables, id: int, fault: bool)
    ensures SearchFranchiseById(t, id, fault).success <==>
      !fault && exists r :: r in FranchiseQueries.IndexFranchise(t) && r.id == id
    ensures forall r :: r in FranchiseQueries.IndexFranchise(t) && r.id == id && !fault ==>
      SearchFranchiseById(t, id, fault) == Success(Done, FranchiseDTO(r.id, r.name))
    ensures !SearchFranchiseById(t, id, fault).success ==>
      SearchFranchiseById(t, id, fault) == Error(if fault then StorageFailure else NotFound)
    ensures IndexFranchise(t, fault).success <==> !fault
  {
    FranchiseQueries.IndexFranchiseRows(t);
    if id in t.franchises {
      assert FranchiseListDTO(id, t.franchises[id].name, |BranchesOf(t, id)|) in FranchiseQueries.IndexFranchise(t);
    }
  }

  /**
   * Creating a franchise succeeds exactly when the store works, no franchise has
   * the same name up to case, and the name fits its column; otherwise nothing is
   * written and the response says why.
   */
  lemma CreateDecision(t: Tables, newId: int, name: string, fault: bool)
    requires NamesUnique(t)
    ensures var o := CreateOutcome(t, newId, name, fault);
      && (o.1.success <==>
            !fault && (forall f :: f in t.franchises ==> !SameName(t.franchises[f].name, name)) &&
            |name| <= MaxNameLength)
      && (!o.1.success ==> o.0 == t && o.1 == Error(
            if fault then StorageFailure
            else if exists f :: f in t.franchises && SameName(t.franchises[f].name, name) then DuplicateName
            else StorageFailure))
  {
    ClashIsDuplicate(t, name, newId);
    FranchiseQueries.SearchNameMatches(t, name);
    if exists f :: f in t.franchises && SameName(t.franchises[f].name, name) {
      var f :| f in t.franchises && SameName(t.franchises[f].name, name);
      assert f in FranchiseQueries.SearchName(t, name);
    }
  }

  /**
   * A created franchise is stored under the newId id and nothing else changes;
   * looking it up by id answers what the creation answered, it is the only
   * franchise found under its name, and the index lists it with no branches.
   */
  lemma CreateRoundTrip(t: Tables, newId: int, name: string, fault: bool)
    requires Integrity(t) && newId !in t.franchises
    ensures var o := CreateOutcome(t, newId, name, fault);
      o.1.success ==>
        && o.0 == t.(franchises := t.franchises[newId := Franchise(name)])
        && o.1.data == Some(FranchiseDTO(newId, name))
        && SearchFranchiseById(o.0, newId, false) == o.1
        && FranchiseQueries.SearchName(o.0, name) == {newId}
        && FranchiseListDTO(newId, name, 0) in FranchiseQueries.IndexFranchise(o.0)
  {
    var o := CreateOutcome(t, newId, name, fault);
    if o.1.success {
      var t2 := o.0;
      FranchiseQueries.SearchNameAfterWrite(t, newId, name, name);
      assert BranchesOf(t2, newId) == {} by {
        forall b | b in t2.branches ensures t2.branches[b].franchiseId != newId {
          assert t.branches[b].franchiseId in t.franchises;
        }
      }
      assert FranchiseListDTO(newId, t2.franchises[newId].name, |BranchesOf(t2, newId)|) in FranchiseQueries.IndexFranchise(t2);
    }
  }

  /** Creating a franchise keeps integrity and name uniqueness. */
  lemma CreateKeepsInvariants(t: Tables, newId: int, name: string, fault: bool)
    requires Integrity(t) && NamesUnique(t)
    ensures Integrity(CreateOutcome(t, newId, name, fault).0)
    ensures NamesUnique(CreateOutcome(t, newId, name, fault).0)
  {
    var t2 := CreateOutcome(t, newId, name, fault).0;
    if t2 != t {
      forall f | f in t.franchises && f != newId ensures !SameName(t.franchises[f].name, name) {
        assert f !in FranchiseQueries.SearchName(t, name);
      }
    }
  }

  /**
   * Renaming a franchise succeeds exactly when the store works, the franchise
   * exists, no OTHER franchise has the new name up to case, and the name fits its
   * column; otherwise nothing is written and the response says why.
   */
  lemma UpdateDecision(t: Tables, id: int, name: string, fault: bool)
    requires NamesUnique(t)
    ensures var o := UpdateOutcome(t, id, name, fault);
      && (o.1.success <==>
            !fault && id in t.franchises &&
            (forall f :: f in t.franchises && f != id ==> !SameName(t.franchises[f].name, name)) &&
            |name| <= MaxNameLength)
      && (!o.1.success ==> o.0 == t && o.1 == Error(
            if fault then StorageFailure
            else if id !in t.franchises then NotFound
            else if exists f :: f in t.franchises && f != id && SameName(t.franchises[f].name, name) then DuplicateName
            else StorageFailure))
  {
    ClashIsDuplicate(t, name, id);
    if exists f :: f in t.franchises && f != id && SameName(t.franchises[f].name, name) {
      var f :| f in t.franchises && f != id && SameName(t.franchises[f].name, name);
      assert f in FranchiseQueries.SearchNameById(t, name, id);
    }
  }

  /** A franchise may keep its name, or change only its case: that never clashes with itself. */
  lemma KeepingOwnNameSucceeds(t: Tables, id: int, name: string)
    requires NamesUnique(t) && id in t.franchises && SameName(t.franchises[id].name, name)
    requires |name| <= MaxNameLength
    ensures UpdateOutcome(t, id, name, false).1.success
  {
    FranchiseQueries.SearchNameByIdExcludesSelf(t, name, id);
  }

  /**
   * A renamed franchise keeps its id and its branches, nothing else changes,
   * looking it up answers what the update answered, and it is the only franchise
   * found under its new name.
   */
  lemma UpdateRoundTrip(t: Tables, id: int, name: string, fault: bool)
    ensures var o := UpdateOutcome(t, id, name, fault);
      o.1.success ==>
        && o.0.franchises == t.franchises[id := Franchise(name)]
        && o.0.branches == t.branches && o.0.products == t.products
        && BranchesOf(o.0, id) == BranchesOf(t, id)
        && SearchFranchiseById(o.0, id, false) == o.1
        && FranchiseQueries.SearchName(o.0, name) == {id}
  {
    var o := UpdateOutcome(t, id, name, fault);
    if o.1.success {
      FranchiseQueries.SearchNameAfterWrite(t, id, name, name);
      FranchiseQueries.SearchNameByIdExcludesSelf(t, name, id);
    }
  }

  /** Renaming a franchise keeps integrity and name uniqueness. */
  lemma UpdateKeepsInvariants(t: Tables, id: int, name: string, fault: bool)
    requires Integrity(t) && NamesUnique(t)
    ensures Integrity(UpdateOutcome(t, id, name, fault).0)
    ensures NamesUnique(UpdateOutcome(t, id, name, fault).0)
  {
    var t2 := UpdateOutcome(t, id, name, fault).0;
    if t2 != t {
      forall f | f in t.franchises && f != id ensures !SameName(t.franchises[f].name, name) {
        assert f !in FranchiseQueries.SearchNameById(t, name, id);
      }
    }
  }

  /**
   * Deleting a franchise succeeds exactly when the store works and it exists; it
   * answers the deleted franchise, which can no longer be found, takes its
   * branches along, and keeps both invariants.
   */
  lemma DeleteEffect(t: Tables, id: int, fault: bool)
    requires Integrity(t) && NamesUnique(t)
    ensures var o := DeleteOutcome(t, id, fault);
      && (o.1.success <==> !fault && id in t.franchises)
      && (!o.1.success ==> o.0 == t && o.1 == Error(if fault then StorageFailure else NotFound))
      && (o.1.success ==>
            && o.1.data == Some(FranchiseDTO(id, t.franchises[id].name))
            && SearchFranchiseById(o.0, id, false) == Error(NotFound)
            && BranchesOf(o.0, id) == {})
      && Integrity(o.0) && NamesUnique(o.0)
  {
    CascadesKeepInvariants(t, id, 0, 0);
    if !fault && id in t.franchises {
      DeleteFranchiseRemovesSubtree(t, id);
    }
  }

  /** A successful delete leaves the franchise index one row shorter. */
  lemma {:induction false} DeleteShrinksIndex(t: Tables, id: int, fault: bool)
    ensures var o := DeleteOutcome(t, id, fault);
      o.1.success ==> |FranchiseQueries.IndexFranchise(o.0)| == |FranchiseQueries.IndexFranchise(t)| - 1
  {
    var o := DeleteOutcome(t, id, fault);
    if o.1.success {
      FranchiseQueries.IndexFranchiseOneRowPerFranchise(t);
      FranchiseQueries.IndexFranchiseOneRowPerFranchise(o.0);
      assert o.0.franchises.Keys == t.franchises.Keys - {id};
    }
  }

  /**
   * The top-stock report answers for an existing franchise exactly: one row per
   * branch of it that holds products, naming that branch's highest-stock product
   * (the lowest id among equal stocks).
   */
  lemma BranchMaxProductsReportsTop(t: Tables, id: int, fault: bool)
    ensures GetBranchMaxProducts(t, id, fault).success <==> !fault && id in t.franchises
    ensures !fault && id !in t.franchises ==> GetBranchMaxProducts(t, id, fault) == Error(NotFound)
    ensures GetBranchMaxProducts(t, id, fault).success ==>
      GetBranchMaxProducts(t, id, fault).data.value ==
        set b, p | b in BranchesOf(t, id) && p in ProductsOf(t, b) && FranchiseQueries.IsTop(t, b, p) ::
          FranchiseQueries.MaxRow(t, b, p)
  {
    FranchiseQueries.MaxProductsIsTopPerBranch(t, id);
  }

  class FranchiseService {
    const store: Persistence.Store

    constructor (store: Persistence.Store)
      ensures this.store == store
    {
      this.store := store;
    }

    /** `CreateFrachise`: only the name of the DTO is used; the id comes from the store. */
    method CreateFranchise(dto: FranchiseDTO, fault: bool) returns (r: ApiResponse<FranchiseDTO>)
      requires store.Consistent()
      modifies store
      ensures store.Consistent()
      ensures (store.Contents(), r) == CreateOutcome(old(store.Contents()), old(store.nextFranchiseId), dto.name, fault)
      ensures store.nextFranchiseId == old(store.nextFranchiseId) + (if r.success then 1 else 0)
      ensures store.nextBranchId == old(store.nextBranchId) && store.nextProductId == old(store.nextProductId)
    {
      CreateKeepsInvariants(store.Contents(), store.nextFranchiseId, dto.name, fault);
      if fault {
        return Error(StorageFailure);
      }
      var clash := FranchiseQueries.SearchName(store.Contents(), dto.name);
      if clash != {} {
        return Error(ClashMessage(clash));
      }
      var id := store.InsertFranchise(dto.name);
      if id.None? {
        return Error(StorageFailure);
      }
      r := Success(Done, FranchiseDTO(id.value, dto.name));
    }

    /** `UpdateFranchise`: renames franchise `id` to the DTO's name. */
    method UpdateFranchise(id: int, dto: FranchiseDTO, fault: bool) returns (r: ApiResponse<FranchiseDTO>)
      requires store.Consistent()
      modifies store
      ensures store.Consistent()
      ensures (store.Contents(), r) == UpdateOutcome(old(store.Contents()), id, dto.name, fault)
      ensures store.nextFranchiseId == old(store.nextFranchiseId)
      ensures store.nextBranchId == old(store.nextBranchId) && store.nextProductId == old(store.nextProductId)
    {
      UpdateKeepsInvariants(store.Contents(), id, dto.name, fault);
      if fault {
        return Error(StorageFailure);
      }
      if id !in store.franchises {
        return Error(NotFound);
      }
      var clash := FranchiseQueries.SearchNameById(store.Contents(), dto.name, id);
      if clash != {} {
        return Error(ClashMessage(clash));
      }
      var saved := store.UpdateFranchise(id, dto.name);
      if !saved {
        return Error(StorageFailure);
      }
      r := Success(Done, FranchiseDTO(id, dto.name));
    }

    /** `DeleteFranchise`: removes franchise `id` with its branches and their products. */
    method DeleteFranchise(id: int, fault: bool) returns (r: ApiResponse<FranchiseDTO>)
      requires store.Consistent()
      modifies store
      ensures store.Consistent()
      ensures (store.Contents(), r) == DeleteOutcome(old(store.Contents()), id, fault)
      ensures store.nextFranchiseId == old(store.nextFranchiseId)
      ensures store.nextBranchId == old(store.nextBranchId) && store.nextProductId == old(store.nextProductId)
    {
      if fault {
        return Error(StorageFailure);
      }
      if id !in store.franchises {
        return Error(NotFound);
      }
      CascadesKeepInvariants(store.Contents(), id, 0, 0);
      var name := store.franchises[id].name;
      store.DeleteFranchise(id);
      r := Success(Done, FranchiseDTO(id, name));
    }
  }
}
