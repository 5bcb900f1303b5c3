/**
 * BranchService. As for franchises: every operation answers with the envelope
 * and turns a store failure (`fault`) into an error without writing anything;
 * reads are functions of the store's contents, writes are methods of the
 * service class proved against a function from the old tables to the new ones
 * and the response. A branch's name is unique within its franchise.
 */
module BranchServices {
  import opened Dto
  import opened Entities
  import BranchQueries
  import Persistence

  /** `branchIndex`: the branch index of franchise `fid`; an unknown franchise is not an error. */
  function BranchIndex(t: Tables, fid: int, fault: bool): (r: ApiResponse<set<BranchListDTO>>)
    ensures r.success <==> !fault
    ensures r.success <==> r.data.Some?
  {
    if fault then Error(StorageFailure) else Success(Done, BranchQueries.IndexBranch(t, fid))
  }

  /** `SearchById`: one branch as a BranchDTO. */
  function SearchById(t: Tables, id: int, fault: bool): (r: ApiResponse<BranchDTO>)
    ensures r.success <==> !fault && id in t.branches
    ensures r.success <==> r.data.Some?
    ensures r.success ==> r.data.value.id == id
  {
    if fault then Error(StorageFailure)
    else if id !in t.branches then Error(NotFound)
    else Success(Done, BranchDTO(id, t.branches[id].name, t.branches[id].franchiseId))
  }

  /**
   * `CreateProduct` of the branch service (it creates a branch): the name check
   * within the franchise first, then the franchise's existence, then `save`
   * under the id `newId` that the IDENTITY column hands out.
   */
  function CreateOutcome(t: Tables, newId: int, dto: BranchDTO, fault: bool): (o: (Tables, ApiResponse<BranchDTO>))
    ensures o.1.success <==> o.1.data.Some?
    ensures !o.1.success ==> o.0 == t
    ensures o.1.success ==>
      && dto.franchiseId in t.franchises && o.1.data.value.id == newId
      && o.0.branches.Keys == t.branches.Keys + {newId}
      && o.0.franchises == t.franchises && o.0.products == t.products
  {
    var clash := BranchQueries.FindByName(t, dto.franchiseId, dto.name);
    if fault then (t, Error(StorageFailure))
    else if clash != {} then (t, Error(ClashMessage(clash)))
    else if dto.franchiseId !in t.franchises then (t, Error(ParentNotFound))
    else if |dto.name| > MaxNameLength then (t, Error(StorageFailure))
    else
      (t.(branches := t.branches[newId := Branch(dto.name, dto.franchiseId)]),
       Success(Done, BranchDTO(newId, dto.name, dto.franchiseId)))
  }

  /**
   * `UpdateBranch`: existence, the name check within the TARGET franchise
   * excluding itself, the target franchise's existence, then `save` (which may
   * move the branch to another franchise).
   */
  function UpdateOutcome(t: Tables, id: int, dto: BranchDTO, fault: bool): (o: (Tables, ApiResponse<BranchDTO>))
    ensures o.1.success <==> o.1.data.Some?
    ensures !o.1.success ==> o.0 == t
    ensures o.1.success ==>
      && id in t.branches && dto.franchiseId in t.franchises && o.1.data.value.id == id
      && o.0.branches.Keys == t.branches.Keys
      && o.0.franchises == t.franchises && o.0.products == t.products
  {
    if fault then (t, Error(StorageFailure))
    else if id !in t.branches then (t, Error(NotFound))
    else
      var clash := BranchQueries.FindByIdName(t, dto.franchiseId, dto.name, id);
      if clash != {} then (t, Error(ClashMessage(clash)))
      else if dto.franchiseId !in t.franchises then (t, Error(ParentNotFound))
      else if |dto.name| > MaxNameLength then (t, Error(StorageFailure))
      else
        (t.(branches := t.branches[id := Branch(dto.name, dto.franchiseId)]),
         Success(Done, BranchDTO(id, dto.name, dto.franchiseId)))
  }

  /** `DeleteBranch`: existence, then the `delete` that cascades to the products. */
  function DeleteOutcome(t: Tables, id: int, fault: bool): (o: (Tables, ApiResponse<BranchDTO>))
    ensures o.1.success <==> o.1.data.Some?
    ensures !o.1.success ==> o.0 == t
    ensures o.1.success ==>
      id in t.branches && id !in o.0.branches && o.0.franchises == t.franchises && o.1.data.value.id == id
  {
    if fault then (t, Error(StorageFailure))
    else if id !in t.branches then (t, Error(NotFound))
    else
      (DeleteBranchCascade(t, id),
       Success(Done, BranchDTO(id, t.branches[id].name, t.branches[id].franchiseId)))
  }

  /** With unique names a clash is always reported as a duplicate. */
  lemma ClashIsDuplicate(t: Tables, fid: int, name: string, id: int)
    requires NamesUnique(t)
    ensures BranchQueries.FindByName(t, fid, name) != {} ==>
      ClashMessage(BranchQueries.FindByName(t, fid, name)) == DuplicateName
    ensures BranchQueries.FindByIdName(t, fid, name, id) != {} ==>
      ClashMessage(BranchQueries.FindByIdName(t, fid, name, id)) == DuplicateName
  {
    BranchQueries.FindByNameMatches(t, fid, name);
    SingleClashIsDuplicate(BranchQueries.FindByName(t, fid, name));
    BranchQueries.FindByIdNameExcludesSelf(t, fid, name, id);
    SingleClashIsDuplicate(BranchQueries.FindByIdName(t, fid, name, id));
  }

  /**
   * A branch is found by id exactly when it exists, and then the index of its
   * franchise lists it under the same name; the index itself never reports an
   * unknown franchise, it answers an empty list.
   */
  lemma SearchByIdAgreesWithIndex(t: Tables, id: int, fid: int, fault: bool)
    requires Integrity(t)
    ensures SearchById(t, id, fault).success <==> !fault && id in t.branches
    ensures !SearchById(t, id, fault).success ==>
      SearchById(t, id, fault) == Error(if fault then StorageFailure else NotFound)
    ensures SearchById(t, id, fault).success ==>
      var d := SearchById(t, id, fault).data.value;
      exists r :: r in BranchQueries.IndexBranch(t, d.franchiseId) && r.id == id && r.name == d.name
    ensures BranchIndex(t, fid, fault).success <==> !fault
    ensures !fault && fid !in t.franchises ==> BranchIndex(t, fid, fault) == Success(Done, {})
  {
    if !fault && id in t.branches {
      var g := t.branches[id].franchiseId;
      assert BranchListDTO(id, t.branches[id].name, |ProductsOf(t, id)|, t.franchises[g].name) in BranchQueries.IndexBranch(t, g);
    }
    BranchQueries.IndexBranchOneRowPerBranch(t, fid);
  }

  /**
   * Creating a branch succeeds exactly when the store works, the franchise has no
   * branch with the same name up to case, the franchise exists, and the name fits
   * its column; otherwise nothing is written and the response says why, the
   * duplicate being reported before the missing franchise.
   */
  lemma CreateDecision(t: Tables, newId: int, dto: BranchDTO, fault: bool)
    requires NamesUnique(t)
    ensures var o := CreateOutcome(t, newId, dto, fault);
      && (o.1.success <==>
            && !fault
            && (forall b :: b in t.branches && t.branches[b].franchiseId == dto.franchiseId ==>
                  !SameName(t.branches[b].name, dto.name))
            && dto.franchiseId in t.franchises && |dto.name| <= MaxNameLength)
      && (!o.1.success ==> o.0 == t && o.1 == Error(
            if fault then StorageFailure
            else if (exists b :: b in t.branches && t.branches[b].franchiseId == dto.franchiseId &&
                                 SameName(t.branches[b].name, dto.name)) then DuplicateName
            else if dto.franchiseId !in t.franchises then ParentNotFound
            else StorageFailure))
  {
    ClashIsDuplicate(t, dto.franchiseId, dto.name, newId);
    if exists b :: b in t.branches && t.branches[b].franchiseId == dto.franchiseId && SameName(t.branches[b].name, dto.name) {
      var b :| b in t.branches && t.branches[b].franchiseId == dto.franchiseId && SameName(t.branches[b].name, dto.name);
      assert b in BranchQueries.FindByName(t, dto.franchiseId, dto.name);
    }
  }

  /**
   * A created branch is stored under the fresh id in its franchise and nothing
   * else changes; looking it up answers what the creation answered, it is the
   * only branch of its franchise found under its name, and the franchise's index
   * lists it with no products.
   */
  lemma CreateRoundTrip(t: Tables, newId: int, dto: BranchDTO, fault: bool)
    requires Integrity(t) && newId !in t.branches
    ensures var o := CreateOutcome(t, newId, dto, fault);
      o.1.success ==>
        && o.0 == t.(branches := t.branches[newId := Branch(dto.name, dto.franchiseId)])
        && o.1.data == Some(BranchDTO(newId, dto.name, dto.franchiseId))
        && SearchById(o.0, newId, false) == o.1
        && BranchQueries.FindByName(o.0, dto.franchiseId, dto.name) == {newId}
        && BranchListDTO(newId, dto.name, 0, t.franchises[dto.franchiseId].name) in
             BranchQueries.IndexBranch(o.0, dto.franchiseId)
  {
    var o := CreateOutcome(t, newId, dto, fault);
    if o.1.success {
      var t2 := o.0;
      BranchQueries.FindByNameAfterWrite(t, newId, dto.name, dto.franchiseId, dto.franchiseId, dto.name);
      assert ProductsOf(t2, newId) == {} by {
        forall p | p in t2.products ensures t2.products[p].branchId != newId {
          assert t.products[p].branchId in t.branches;
        }
      }
      assert BranchListDTO(newId, t2.branches[newId].name, |ProductsOf(t2, newId)|, t2.franchises[dto.franchiseId].name)
        in BranchQueries.IndexBranch(t2, dto.franchiseId);
    }
  }

  /** Creating a branch keeps integrity and name uniqueness. */
  lemma CreateKeepsInvariants(t: Tables, newId: int, dto: BranchDTO, fault: bool)
    requires Integrity(t) && NamesUnique(t)
    ensures Integrity(CreateOutcome(t, newId, dto, fault).0)
    ensures NamesUnique(CreateOutcome(t, newId, dto, fault).0)
  {
    var t2 := CreateOutcome(t, newId, dto, fault).0;
    if t2 != t {
      forall b | b in t.branches && b != newId && t.branches[b].franchiseId == dto.franchiseId
        ensures !SameName(t.branches[b].name, dto.name)
      {
        assert b !in BranchQueries.FindByName(t, dto.franchiseId, dto.name);
      }
    }
  }

  /**
   * Updating a branch succeeds exactly when the store works, the branch exists,
   * no OTHER branch of the target franchise has the new name up to case, the
   * target franchise exists, and the name fits its column; otherwise nothing is
   * written and the response says why.
   */
  lemma UpdateDecision(t: Tables, id: int, dto: BranchDTO, fault: bool)
    requires NamesUnique(t)
    ensures var o := UpdateOutcome(t, id, dto, fault);
      && (o.1.success <==>
            && !fault && id in t.branches
            && (forall b :: b in t.branches && b != id && t.branches[b].franchiseId == dto.franchiseId ==>
                  !SameName(t.branches[b].name, dto.name))
            && dto.franchiseId in t.franchises && |dto.name| <= MaxNameLength)
      && (!o.1.success ==> o.0 == t && o.1 == Error(
            if fault then StorageFailure
            else if id !in t.branches then NotFound
            else if (exists b :: b in t.branches && b != id && t.branches[b].franchiseId == dto.franchiseId &&
                                 SameName(t.branches[b].name, dto.name)) then DuplicateName
            else if dto.franchiseId !in t.franchises then ParentNotFound
            else StorageFailure))
  {
    ClashIsDuplicate(t, dto.franchiseId, dto.name, id);
    if exists b :: b in t.branches && b != id && t.branches[b].franchiseId == dto.franchiseId &&
         SameName(t.branches[b].name, dto.name) {
      var b :| b in t.branches && b != id && t.branches[b].franchiseId == dto.franchiseId &&
        SameName(t.branches[b].name, dto.name);
      assert b in BranchQueries.FindByIdName(t, dto.franchiseId, dto.name, id);
    }
  }

  /** A branch may keep its name, or change only its case, within its own franchise. */
  lemma KeepingOwnNameSucceeds(t: Tables, id: int, name: string)
    requires Integrity(t) && NamesUnique(t) && id in t.branches && SameName(t.branches[id].name, name)
    requires |name| <= MaxNameLength
    ensures UpdateOutcome(t, id, BranchDTO(id, name, t.branches[id].franchiseId), false).1.success
  {
    BranchQueries.FindByIdNameExcludesSelf(t, t.branches[id].franchiseId, name, id);
  }

  /**
   * An updated branch keeps its id and its products, now belongs to the target
   * franchise, nothing else changes, looking it up answers what the update
   * answered, and it is the only branch of that franchise found under its name.
   */
  lemma UpdateRoundTrip(t: Tables, id: int, dto: BranchDTO, fault: bool)
    ensures var o := UpdateOutcome(t, id, dto, fault);
      o.1.success ==>
        && o.0.branches == t.branches[id := Branch(dto.name, dto.franchiseId)]
        && o.0.franchises == t.franchises && o.0.products == t.products
        && ProductsOf(o.0, id) == ProductsOf(t, id)
        && id in BranchesOf(o.0, dto.franchiseId)
        && SearchById(o.0, id, false) == o.1
        && BranchQueries.FindByName(o.0, dto.franchiseId, dto.name) == {id}
  {
    var o := UpdateOutcome(t, id, dto, fault);
    if o.1.success {
      BranchQueries.FindByNameAfterWrite(t, id, dto.name, dto.franchiseId, dto.franchiseId, dto.name);
      BranchQueries.FindByIdNameExcludesSelf(t, dto.franchiseId, dto.name, id);
    }
  }

  /** Updating a branch keeps integrity and name uniqueness. */
  lemma UpdateKeepsInvariants(t: Tables, id: int, dto: BranchDTO, fault: bool)
    requires Integrity(t) && NamesUnique(t)
    ensures Integrity(UpdateOutcome(t, id, dto, fault).0)
    ensures NamesUnique(UpdateOutcome(t, id, dto, fault).0)
  {
    var t2 := UpdateOutcome(t, id, dto, fault).0;
    if t2 != t {
      forall b | b in t.branches && b != id && t.branches[b].franchiseId == dto.franchiseId
        ensures !SameName(t.branches[b].name, dto.name)
      {
        assert b !in BranchQueries.FindByIdName(t, dto.franchiseId, dto.name, id);
      }
    }
  }

  /**
   * Deleting a branch succeeds exactly when the store works and it exists; it
   * answers the deleted branch, which can no longer be found, takes its products
   * along, leaves the franchises alone, and keeps both invariants.
   */
  lemma DeleteEffect(t: Tables, id: int, fault: bool)
    requires Integrity(t) && NamesUnique(t)
    ensures var o := DeleteOutcome(t, id, fault);
      && (o.1.success <==> !fault && id in t.branches)
      && (!o.1.success ==> o.0 == t && o.1 == Error(if fault then StorageFailure else NotFound))
      && (o.1.success ==>
            && o.1.data == Some(BranchDTO(id, t.branches[id].name, t.branches[id].franchiseId))
            && SearchById(o.0, id, false) == Error(NotFound)
            && ProductsOf(o.0, id) == {}
            && o.0.franchises == t.franchises)
      && Integrity(o.0) && NamesUnique(o.0)
  {
    CascadesKeepInvariants(t, 0, id, 0);
    if !fault && id in t.branches {
      DeleteBranchRemovesSubtree(t, id);
    }
  }

  class BranchService {
    const store: Persistence.Store

    constructor (store: Persistence.Store)
      ensures this.store == store
    {
      this.store := store;
    }

    /** `CreateProduct` of the branch service: adds a branch to the DTO's franchise. */
    method CreateBranch(dto: BranchDTO, fault: bool) returns (r: ApiResponse<BranchDTO>)
      requires store.Consistent()
      modifies store
      ensures store.Consistent()
      ensures (store.Contents(), r) == CreateOutcome(old(store.Contents()), old(store.nextBranchId), dto, fault)
      ensures store.nextBranchId == old(store.nextBranchId) + (if r.success then 1 else 0)
      ensures store.nextFranchiseId == old(store.nextFranchiseId) && store.nextProductId == old(store.nextProductId)
    {
      CreateKeepsInvariants(store.Contents(), store.nextBranchId, dto, fault);
      if fault {
        return Error(StorageFailure);
      }
      var clash := BranchQueries.FindByName(store.Contents(), dto.franchiseId, dto.name);
      if clash != {} {
        return Error(ClashMessage(clash));
      }
      if dto.franchiseId !in store.franchises {
        return Error(ParentNotFound);
      }
      var id := store.InsertBranch(dto.name, dto.franchiseId);
      if id.None? {
        return Error(StorageFailure);
      }
      r := Success(Done, BranchDTO(id.value, dto.name, dto.franchiseId));
    }

    /** `UpdateBranch`: renames branch `id` and attaches it to the DTO's franchise. */
    method UpdateBranch(id: int, dto: BranchDTO, fault: bool) returns (r: ApiResponse<BranchDTO>)
      requires store.Consistent()
      modifies store
      ensures store.Consistent()
      ensures (store.Contents(), r) == UpdateOutcome(old(store.Contents()), id, dto, fault)
      ensures store.nextFranchiseId == old(store.nextFranchiseId)
      ensures store.nextBranchId == old(store.nextBranchId) && store.nextProductId == old(store.nextProductId)
    {
      UpdateKeepsInvariants(store.Contents(), id, dto, fault);
      if fault {
        return Error(StorageFailure);
      }
      if id !in store.branches {
        return Error(NotFound);
      }
      var clash := BranchQueries.FindByIdName(store.Contents(), dto.franchiseId, dto.name, id);
      if clash != {} {
        return Error(ClashMessage(clash));
      }
      if dto.franchiseId !in store.franchises {
        return Error(ParentNotFound);
      }
      var saved := store.UpdateBranch(id, dto.name, dto.franchiseId);
      if !saved {
        return Error(StorageFailure);
      }
      r := Success(Done, BranchDTO(id, dto.name, dto.franchiseId));
    }

    /** `DeleteBranch`: removes branch `id` with its products. */
    method DeleteBranch(id: int, fault: bool) returns (r: ApiResponse<BranchDTO>)
      requires store.Consistent()
      modifies store
      ensures store.Consistent()
      ensures (store.Contents(), r) == DeleteOutcome(old(store.Contents()), id, fault)
      ensures store.nextFranchiseId == old(store.nextFranchiseId)
      ensures store.nextBranchId == old(store.nextBranchId) && store.nextProductId == old(store.nextProductId)
    {
      if fault {
        return Error(StorageFailure);
      }
      if id !in store.branches {
        return Error(NotFound);
      }
      CascadesKeepInvariants(store.Contents(), 0, id, 0);
      var b := store.branches[id];
      store.DeleteBranch(id);
      r := Success(Done, BranchDTO(id, b.name, b.franchiseId));
    }
  }
}
