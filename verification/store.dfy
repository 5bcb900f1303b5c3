/**
 * The relational store behind the three repositories: one table per entity,
 * each keyed by an IDENTITY column that hands out increasing ids starting at 1
 * and never reuses one. `save` of a new entity inserts it under the next id,
 * `save` of a fetched entity overwrites its row, and `delete` removes a row
 * together with everything the `cascade = ALL` mappings reach. A franchise or
 * branch name longer than the `length = 100` of its column makes the save fail
 * without writing anything.
 */
module Persistence {
  import opened Dto
  import opened Entities

  class Store {
    var franchises: map<int, Franchise>
    var branches: map<int, Branch>
    var products: map<int, Product>
    var nextFranchiseId: int
    var nextBranchId: int
    var nextProductId: int

    /** The three tables as a value. */
    function Contents(): Tables
      reads this
    {
      Tables(franchises, branches, products)
    }

    /**
     * Referential integrity and the column lengths hold, and every id in use is
     * positive and below the next id its IDENTITY column will hand out.
     */
    ghost predicate Valid()
      reads this
    {
      && Integrity(Contents())
      && 0 < nextFranchiseId && 0 < nextBranchId && 0 < nextProductId
      && (forall f :: f in franchises ==> 0 < f < nextFranchiseId)
      && (forall b :: b in branches ==> 0 < b < nextBranchId)
      && (forall p :: p in products ==> 0 < p < nextProductId)
    }

    /**
     * What the services keep true on top of what the database enforces: names
     * are unique in their scopes (see `NamesUnique`).
     */
    ghost predicate Consistent()
      reads this
    {
      Valid() && NamesUnique(Contents())
    }

    /** An empty database. */
    constructor ()
      ensures Valid()
      ensures Contents() == Tables(map[], map[], map[])
      ensures nextFranchiseId == 1 && nextBranchId == 1 && nextProductId == 1
    {
      franchises := map[];
      branches := map[];
      products := map[];
      nextFranchiseId := 1;
      nextBranchId := 1;
      nextProductId := 1;
    }

    /** `save` of a new franchise: inserted under the next id unless its name is too long for the column. */
    method InsertFranchise(name: string) returns (id: Option<int>)
      requires Valid()
      modifies this
      ensures Valid()
      ensures old(nextFranchiseId) !in old(franchises)
      ensures id == if |name| <= MaxNameLength then Some(old(nextFranchiseId)) else None
      ensures id.Some? ==> Contents() == old(Contents()).(franchises := old(franchises)[id.value := Franchise(name)])
      ensures id.None? ==> Contents() == old(Contents())
      ensures nextFranchiseId == old(nextFranchiseId) + (if id.Some? then 1 else 0)
      ensures nextBranchId == old(nextBranchId) && nextProductId == old(nextProductId)
    {
      if |name| > MaxNameLength {
        return None;
      }
      id := Some(nextFranchiseId);
      franchises := franchises[nextFranchiseId := Franchise(name)];
      nextFranchiseId := nextFranchiseId + 1;
    }

    /** `save` of a fetched franchise: its row is overwritten unless the name is too long. */
    method UpdateFranchise(id: int, name: string) returns (saved: bool)
      requires Valid() && id in franchises
      modifies this
      ensures Valid()
      ensures saved <==> |name| <= MaxNameLength
      ensures saved ==> Contents() == old(Contents()).(franchises := old(franchises)[id := Franchise(name)])
      ensures !saved ==> Contents() == old(Contents())
      ensures nextFranchiseId == old(nextFranchiseId) && nextBranchId == old(nextBranchId) && nextProductId == old(nextProductId)
    {
      if |name| > MaxNameLength {
        return false;
      }
      franchises := franchises[id := Franchise(name)];
      saved := true;
    }

    /** `delete` of a franchise: the cascade takes its branches and their products along. */
    method DeleteFranchise(id: int)
      requires Valid() && id in franchises
      modifies this
      ensures Valid()
      ensures Contents() == DeleteFranchiseCascade(old(Contents()), id)
      ensures nextFranchiseId == old(nextFranchiseId) && nextBranchId == old(nextBranchId) && nextProductId == old(nextProductId)
    {
      CascadesKeepInvariants(Contents(), id, 0, 0);
      var t := DeleteFranchiseCascade(Contents(), id);
      franchises, branches, products := t.franchises, t.branches, t.products;
    }

    /** `save` of a new branch of an existing franchise. */
    method InsertBranch(name: string, franchiseId: int) returns (id: Option<int>)
      requires Valid() && franchiseId in franchises
      modifies this
      ensures Valid()
      ensures old(nextBranchId) !in old(branches)
      ensures id == if |name| <= MaxNameLength then Some(old(nextBranchId)) else None
      ensures id.Some? ==> Contents() == old(Contents()).(branches := old(branches)[id.value := Branch(name, franchiseId)])
      ensures id.None? ==> Contents() == old(Contents())
      ensures nextBranchId == old(nextBranchId) + (if id.Some? then 1 else 0)
      ensures nextFranchiseId == old(nextFranchiseId) && nextProductId == old(nextProductId)
    {
      if |name| > MaxNameLength {
        return None;
      }
      id := Some(nextBranchId);
      branches := branches[nextBranchId := Branch(name, franchiseId)];
      nextBranchId := nextBranchId + 1;
    }

    /** `save` of a fetched branch, possibly moved to another existing franchise. */
    method UpdateBranch(id: int, name: string, franchiseId: int) returns (saved: bool)
      requires Valid() && id in branches && franchiseId in franchises
      modifies this
      ensures Valid()
      ensures saved <==> |name| <= MaxNameLength
      ensures saved ==> Contents() == old(Contents()).(branches := old(branches)[id := Branch(name, franchiseId)])
      ensures !saved ==> Contents() == old(Contents())
      ensures nextFranchiseId == old(nextFranchiseId) && nextBranchId == old(nextBranchId) && nextProductId == old(nextProductId)
    {
      if |name| > MaxNameLength {
        return false;
      }
      branches := branches[id := Branch(name, franchiseId)];
      saved := true;
    }

    /** `delete` of a branch: the cascade takes its products along. */
    method DeleteBranch(id: int)
      requires Valid() && id in branches
      modifies this
      ensures Valid()
      ensures Contents() == DeleteBranchCascade(old(Contents()), id)
      ensures nextFranchiseId == old(nextFranchiseId) && nextBranchId == old(nextBranchId) && nextProductId == old(nextProductId)
    {
      CascadesKeepInvariants(Contents(), 0, id, 0);
      var t := DeleteBranchCascade(Contents(), id);
      franchises, branches, products := t.franchises, t.branches, t.products;
    }

    /** `save` of a new product of an existing branch (no column constraint applies). */
    method InsertProduct(name: string, stock: int, branchId: int) returns (id: int)
      requires Valid() && branchId in branches
      modifies this
      ensures Valid()
      ensures id == old(nextProductId) && id !in old(products)
      ensures Contents() == old(Contents()).(products := old(products)[id := Product(name, stock, branchId)])
      ensures nextProductId == old(nextProductId) + 1
      ensures nextFranchiseId == old(nextFranchiseId) && nextBranchId == old(nextBranchId)
    {
      id := nextProductId;
      products := products[id := Product(name, stock, branchId)];
      nextProductId := nextProductId + 1;
    }

    /** `save` of a fetched product, possibly moved to another existing branch. */
    method UpdateProduct(id: int, name: string, stock: int, branchId: int)
      requires Valid() && id in products && branchId in branches
      modifies this
      ensures Valid()
      ensures Contents() == old(Contents()).(products := old(products)[id := Product(name, stock, branchId)])
      ensures nextFranchiseId == old(nextFranchiseId) && nextBranchId == old(nextBranchId) && nextProductId == old(nextProductId)
    {
      products := products[id := Product(name, stock, branchId)];
    }

    /** `delete` of a product: nothing cascades from a product. */
    method DeleteProduct(id: int)
      requires Valid() && id in products
      modifies this
      ensures Valid()
      ensures Contents() == DeleteProductRow(old(Contents()), id)
      ensures nextFranchiseId == old(nextFranchiseId) && nextBranchId == old(nextBranchId) && nextProductId == old(nextProductId)
    {
      CascadesKeepInvariants(Contents(), 0, 0, id);
      products := products - {id};
    }
  }
}
