/**
 * Properties that span the three services: what a cascading delete in one
 * service means for the reads of the others, and a walk through the services
 * over one shared store.
 */
module Lifecycle {
  import opened Dto
  import opened Entities
  import FranchiseQueries
  import BranchQueries
  import ProductQueries
  import Persistence
  import FranchiseServices
  import BranchServices
  import ProductServices

  /**
   * After a franchise is deleted none of its branches and none of their products
   * can be found any more, its branch index is empty, and its top-stock report
   * says the franchise is unknown.
   */
  lemma DeletedFranchiseLeavesNothingBehind(t: Tables, id: int)
    requires Integrity(t) && id in t.franchises
    ensures var t2 := FranchiseServices.DeleteOutcome(t, id, false).0;
      && (forall b :: b in BranchesOf(t, id) ==> BranchServices.SearchById(t2, b, false) == Error(NotFound))
      && (forall p :: p in t.products && t.products[p].branchId in BranchesOf(t, id) ==>
            ProductServices.SearchById(t2, p, false) == Error(NotFound))
      && BranchServices.BranchIndex(t2, id, false) == Success(Done, {})
      && FranchiseServices.GetBranchMaxProducts(t2, id, false) == Error(NotFound)
  {
    DeleteFranchiseRemovesSubtree(t, id);
    BranchQueries.IndexBranchOneRowPerBranch(FranchiseServices.DeleteOutcome(t, id, false).0, id);
  }

  /**
   * After a branch is deleted none of its products can be found any more and its
   * product index is empty; its franchise is still there.
   */
  lemma DeletedBranchLeavesNothingBehind(t: Tables, id: int)
    requires Integrity(t) && id in t.branches
    ensures var t2 := BranchServices.DeleteOutcome(t, id, false).0;
      && (forall p :: p in ProductsOf(t, id) ==> ProductServices.SearchById(t2, p, false) == Error(NotFound))
      && ProductServices.IndexProducts(t2, id, false) == Success(Done, {})
      && FranchiseServices.SearchFranchiseById(t2, t.branches[id].franchiseId, false).success
  {
    DeleteBranchRemovesSubtree(t, id);
    ProductQueries.IndexProductOneRowPerProduct(BranchServices.DeleteOutcome(t, id, false).0, id);
  }

  /**
   * The state the walkthrough reaches: franchise "Acme" with branch "North"
   * holding product "Widget" with stock 5. A branch named "north" clashes with
   * "North", and the top-stock report is the single row for North.
   */
  lemma {:induction false} WalkthroughState(fid: int, bid: int, pid: int)
    ensures var t := Tables(map[fid := Franchise("Acme")], map[bid := Branch("North", fid)], map[pid := Product("Widget", 5, bid)]);
      && BranchQueries.FindByName(t, fid, "north") == {bid}
      && FranchiseServices.GetBranchMaxProducts(t, fid, false) ==
           Success(Done, {BranchMaxProductsListDTO(bid, "North", "Widget", 5)})
      && ProductServices.IndexProducts(t, bid, false) == Success(Done, {ProductListDTO(pid, "Widget", 5, "North")})
  {
    var t := Tables(map[fid := Franchise("Acme")], map[bid := Branch("North", fid)], map[pid := Product("Widget", 5, bid)]);
    assert LowerStr("North") == LowerStr("north");
    assert bid in BranchQueries.FindByName(t, fid, "north");
    assert ProductsOf(t, bid) == {pid};
    assert BranchesOf(t, fid) == {bid};
    assert FranchiseQueries.IsTop(t, bid, pid);
    FranchiseQueries.MaxProductsIsTopPerBranch(t, fid);
    var row := BranchMaxProductsListDTO(bid, "North", "Widget", 5);
    assert FranchiseQueries.MaxRow(t, bid, pid) == row;
    forall r | r in FranchiseQueries.SearchBranchesMaxProducts(t, fid) ensures r == row {
      var b, p :| b in BranchesOf(t, fid) && p in ProductsOf(t, b) && fid in t.franchises &&
        FranchiseQueries.IsTop(t, b, p) && r == FranchiseQueries.MaxRow(t, b, p);
    }
    assert row in FranchiseQueries.SearchBranchesMaxProducts(t, fid);
    assert FranchiseQueries.SearchBranchesMaxProducts(t, fid) == {row};
    assert BranchQueries.FindByName(t, fid, "north") == {bid};
    var listed := ProductListDTO(pid, "Widget", 5, "North");
    assert listed in ProductQueries.IndexProduct(t, bid);
    assert ProductQueries.IndexProduct(t, bid) == {listed};
  }

  /**
   * On an empty database: create franchise "Acme", its branch "North" and a
   * product "Widget" with stock 5 there. Each is given id 1 by its IDENTITY
   * column.
   */
  method SeedAcme() returns (store: Persistence.Store)
    ensures fresh(store) && store.Consistent()
    ensures store.Contents() ==
      Tables(map[1 := Franchise("Acme")], map[1 := Branch("North", 1)], map[1 := Product("Widget", 5, 1)])
  {
    store := new Persistence.Store();
    var franchises := new FranchiseServices.FranchiseService(store);
    var branches := new BranchServices.BranchService(store);
    var products := new ProductServices.ProductService(store);

    assert FranchiseQueries.SearchName(store.Contents(), "Acme") == {};
    var f := franchises.CreateFranchise(FranchiseDTO(0, "Acme"), false);
    assert store.Contents() == Tables(map[1 := Franchise("Acme")], map[], map[]);

    assert BranchQueries.FindByName(store.Contents(), 1, "North") == {};
    var b := branches.CreateBranch(BranchDTO(0, "North", 1), false);
    assert store.Contents() == Tables(map[1 := Franchise("Acme")], map[1 := Branch("North", 1)], map[]);

    assert ProductQueries.FindByName(store.Contents(), 1, "Widget") == {};
    var p := products.CreateProduct(ProductDTO(0, "Widget", 5, 1), false);
  }

  /**
   * After `SeedAcme`, the product index of North lists the widget, a second
   * branch "north" of Acme is refused as a duplicate, and the top-stock report
   * of Acme is the one row (North, Widget, 5).
   */
  method Walkthrough()
    returns (listing: ApiResponse<set<ProductListDTO>>, dup: ApiResponse<BranchDTO>,
             report: ApiResponse<set<BranchMaxProductsListDTO>>)
    ensures listing == Success(Done, {ProductListDTO(1, "Widget", 5, "North")})
    ensures dup == Error(DuplicateName)
    ensures report == Success(Done, {BranchMaxProductsListDTO(1, "North", "Widget", 5)})
  {
    var store := SeedAcme();
    var branches := new BranchServices.BranchService(store);
    WalkthroughState(1, 1, 1);
    listing := ProductServices.IndexProducts(store.Contents(), 1, false);
    dup := branches.CreateBranch(BranchDTO(0, "north", 1), false);
    report := FranchiseServices.GetBranchMaxProducts(store.Contents(), 1, false);
  }

  /**
   * The IDENTITY column never hands out an id twice: franchise "A" is created
   * under id 1 and deleted, and franchise "B" created next gets id 2, not 1.
   */
  method DeletedIdNotReissued() returns (a: ApiResponse<FranchiseDTO>, b: ApiResponse<FranchiseDTO>)
    ensures a == Success(Done, FranchiseDTO(1, "A"))
    ensures b == Success(Done, FranchiseDTO(2, "B"))
  {
    var store := new Persistence.Store();
    var franchises := new FranchiseServices.FranchiseService(store);
    assert FranchiseQueries.SearchName(store.Contents(), "A") == {};
    a := franchises.CreateFranchise(FranchiseDTO(0, "A"), false);
    var gone := franchises.DeleteFranchise(1, false);
    assert store.Contents() == Tables(map[], map[], map[]);
    assert FranchiseQueries.SearchName(store.Contents(), "B") == {};
    b := franchises.CreateFranchise(FranchiseDTO(0, "B"), false);
  }
}
