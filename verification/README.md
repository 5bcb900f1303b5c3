# Franchise / branch / product store — a verified model

This project models the core of a small franchise-management API. There is a
three-level hierarchy: franchises own branches, and branches own products. It
covers the case-insensitive, scoped name-uniqueness rules the services enforce
before writing. It covers the cascading deletes of the JPA mappings. It covers
the JPQL queries behind the list endpoints, including the "highest-stock product
per branch, ties to the lowest id" report. Finally, it covers the uniform
response envelope every service operation answers with.

Structure, following the program's own layers:

- `dto.dfy` (`Dto`): the envelope `ApiResponse` with its two factories `Success` / `Error`, and the
  row and record shapes the services return. Messages are tags (`Done`, `NotFound`, `ParentNotFound`,
  `DuplicateName`, `StorageFailure`) instead of the source's Spanish text.
- `entities.dfy` (`Entities`): the three entities as records, and the whole database as a value
  `Tables`. This value is three maps keyed by the surrogate id, and each child points at its parent by id.
  The module also holds the two invariants (`Integrity`: foreign keys and column lengths;
  `NamesUnique`: scoped case-insensitive uniqueness), the ASCII `LOWER`, and the cascading deletes.
- `aggregates.dfy` (`Aggregates`): SQL `MAX`/`MIN` over a non-empty group. It also holds the counting
  fact behind "one row per group".
- `franchise_queries.dfy`, `branch_queries.dfy`, `product_queries.dfy`: each JPQL query of
  `IFranchise`, `IBranch` and `IProduct` as a function of `Tables`. A list query yields the set of its
  rows, because no query orders its rows. An `Optional` query yields the set of matching ids.
  The top-stock query is written as the JPQL is: a `MAX(stock)` subquery, then a `MIN(id)` subquery
  among the products with that stock. It is proved equal to an independent definition,
  `IsTop` (stock descending, then id ascending).
- `store.dfy` (`Persistence.Store`): the database as a class with one map field per table and one
  IDENTITY counter per table. Its methods are the repository's `save` (insert or overwrite) and its
  cascading `delete`. Each method ensures the new `Contents()` in terms of the old, and states
  what happens to each IDENTITY counter: an insert advances its own counter, and nothing else moves one,
  so a deleted id is never handed out again.
- `franchise_service.dfy`, `branch_service.dfy`, `product_service.dfy`: the three services.
  - The read operations (`IndexFranchise`, `SearchFranchiseById`, `GetBranchMaxProducts`,
    `BranchIndex`, `SearchById`, `IndexProducts`) change nothing, so they are functions of the store's
    contents.
  - Each write operation is a method of the service class (`FranchiseService`, `BranchService`,
    `ProductService`, each holding the shared `Store`). It is proved against an outcome function that
    maps the old tables to the new tables and the response.
  - Lemmas about these functions state when each operation succeeds and which message each failure
    carries. They also state that the invariants are kept, and that what a write answers is what a
    later read returns.
- `lifecycle.dfy` (`Lifecycle`): consequences that span services (what a cascade means for the other
  services' reads), a walkthrough over one shared store, and a create-delete-create sequence showing
  that ids are not reused.

Every service operation takes a `fault` flag that stands for "the store threw". The source catches
every exception and answers `Error`. A failed save writes nothing, so in the model a fault means
`Error(StorageFailure)` and no change, wherever in the operation it happens. A franchise or branch name
longer than the 100-character column also makes the save fail. That too gives `StorageFailure` with no
write.

Order of the checks, and what is not checked:

- On create and update of branches and products, the code checks the duplicate name before it checks
  that the parent exists, and its Javadoc lists the two checks in that same order. A request that both
  reuses a name and names a missing parent is therefore answered as a duplicate.
  `CreateDecision`/`UpdateDecision` state this order.
- Empty names and negative stock are accepted: no service checks either, so the model accepts them.
- `branchIndex` and `IndexProducts` do not check that the parent exists. For an unknown franchise or
  branch they answer success with an empty list (`SearchByIdAgreesWithIndex` in each of those modules).

## Model

| member | source | states |
|---|---|---|
| Dto.FactoryFields | src/main/java/com/fulldevcode/franchiseslist/technicaltest/Infraestructure/DTO/ApiResponseDTO.java:25-33 | `Success` sets success, the message and the data; `Error` sets failure, the message and no data |
| Dto.Success | src/main/java/com/fulldevcode/franchiseslist/technicaltest/Infraestructure/DTO/ApiResponseDTO.java:25-28 | the success factory; `FactoryFields` states the fields it sets |
| Dto.Error | src/main/java/com/fulldevcode/franchiseslist/technicaltest/Infraestructure/DTO/ApiResponseDTO.java:30-33 | the error factory; `FactoryFields` states the fields it sets |
| Dto.SuccessIffFromSuccess | src/main/java/com/fulldevcode/franchiseslist/technicaltest/Infraestructure/DTO/ApiResponseDTO.java:17-33 | for a factory-built response, `success` holds exactly when data is present, and the response is rebuilt from its message and data |
| Dto.SingleClashIsDuplicate | src/main/java/com/fulldevcode/franchiseslist/technicaltest/Infraestructure/Interface/IFranchise.java:15-20 | a name lookup that can match at most one row reports any match as a duplicate (an `Optional` query with several rows would throw) |
| Dto.ClashMessage | src/main/java/com/fulldevcode/franchiseslist/technicaltest/Domain/Services/FranchiseService.java:105-110 | the message for a name lookup that found rows; `SingleClashIsDuplicate` states that a lookup matching at most one row gives `DuplicateName` |
| Aggregates.Max | src/main/java/com/fulldevcode/franchiseslist/technicaltest/Infraestructure/Interface/IFranchise.java:51-55 | `MAX` of a non-empty group is a member of the group and no member exceeds it |
| Aggregates.Min | src/main/java/com/fulldevcode/franchiseslist/technicaltest/Infraestructure/Interface/IFranchise.java:56-61 | `MIN` of a non-empty group is a member of the group and no member is below it |
| Entities.DeleteFranchiseRemovesSubtree | src/main/java/com/fulldevcode/franchiseslist/technicaltest/Infraestructure/Models/FranchiseEntity.java:26-27 | deleting a franchise removes it, its branches and their products; every other row survives unchanged |
| Entities.DeleteFranchiseCascade | src/main/java/com/fulldevcode/franchiseslist/technicaltest/Infraestructure/Models/FranchiseEntity.java:26-27 | the franchise is gone and no table gains a key; `DeleteFranchiseRemovesSubtree` states the whole cascade |
| Entities.DeleteBranchRemovesSubtree | src/main/java/com/fulldevcode/franchiseslist/technicaltest/Infraestructure/Models/BranchEntity.java:30-31 | deleting a branch removes it and its products; franchises and all other rows are unchanged |
| Entities.DeleteBranchCascade | src/main/java/com/fulldevcode/franchiseslist/technicaltest/Infraestructure/Models/BranchEntity.java:30-31 | the branch is gone, franchises are untouched and no table gains a key; `DeleteBranchRemovesSubtree` states the whole cascade |
| Entities.DeleteProductRow | src/main/java/com/fulldevcode/franchiseslist/technicaltest/Domain/Services/ProductService.java:239-240 | the product is gone and franchises and branches are untouched; `CascadesKeepInvariants` states that integrity is kept |
| Entities.RemoveBranchesKeepsInvariants | src/main/java/com/fulldevcode/franchiseslist/technicaltest/Infraestructure/Models/BranchEntity.java:30-31 | removing any set of branches with their products keeps integrity and name uniqueness |
| Entities.CascadesKeepInvariants | src/main/java/com/fulldevcode/franchiseslist/technicaltest/Infraestructure/Models/FranchiseEntity.java:26-27 | all three deletes leave no branch without its franchise and no product without its branch, and keep names unique |
| FranchiseQueries.SearchName | src/main/java/com/fulldevcode/franchiseslist/technicaltest/Infraestructure/Interface/IFranchise.java:15-20 | finds only existing franchises; `SearchNameMatches` states what it finds |
| FranchiseQueries.SearchNameById | src/main/java/com/fulldevcode/franchiseslist/technicaltest/Infraestructure/Interface/IFranchise.java:22-27 | finds only existing franchises, never the given id; `SearchNameByIdExcludesSelf` relates it to `SearchName` |
| FranchiseQueries.IndexFranchise | src/main/java/com/fulldevcode/franchiseslist/technicaltest/Infraestructure/Interface/IFranchise.java:29-39 | every row is an existing franchise; `IndexFranchiseOneRowPerFranchise` states one row per franchise with its branch count |
| FranchiseQueries.SearchBranchesMaxProducts | src/main/java/com/fulldevcode/franchiseslist/technicaltest/Infraestructure/Interface/IFranchise.java:41-64 | every row is a branch of the franchise, and an unknown franchise has no rows; `MaxProductsIsTopPerBranch` equates it with the top product per branch |
| FranchiseQueries.Qualifies | src/main/java/com/fulldevcode/franchiseslist/technicaltest/Infraestructure/Interface/IFranchise.java:48-62 | the query's WHERE clause; `QualifiesIffTop` states that it holds exactly for the top product of a branch of the franchise |
| FranchiseQueries.SearchNameMatches | src/main/java/com/fulldevcode/franchiseslist/technicaltest/Infraestructure/Interface/IFranchise.java:15-20 | `SearchName` finds something iff some franchise's lower-cased name equals the lower-cased argument; with unique names it finds at most one |
| FranchiseQueries.SearchNameByIdExcludesSelf | src/main/java/com/fulldevcode/franchiseslist/technicaltest/Infraestructure/Interface/IFranchise.java:22-27 | `SearchNameById` is `SearchName` minus the given id, so a franchise keeping its name (or changing its case) never clashes with itself |
| FranchiseQueries.SearchNameAfterWrite | src/main/java/com/fulldevcode/franchiseslist/technicaltest/Infraestructure/Interface/IFranchise.java:15-20 | writing one franchise row changes what `SearchName` finds only at that row's id |
| FranchiseQueries.IndexFranchiseRows | src/main/java/com/fulldevcode/franchiseslist/technicaltest/Infraestructure/Interface/IFranchise.java:29-39 | every row of the franchise index carries an existing franchise's id and name and the count of its branches |
| FranchiseQueries.NoBranchesIffZero | src/main/java/com/fulldevcode/franchiseslist/technicaltest/Infraestructure/Interface/IFranchise.java:29-39 | the LEFT JOIN count is zero exactly when no branch references the franchise |
| FranchiseQueries.IndexFranchiseIds | src/main/java/com/fulldevcode/franchiseslist/technicaltest/Infraestructure/Interface/IFranchise.java:29-39 | the ids of the index rows are exactly the franchise ids |
| FranchiseQueries.IndexFranchiseOneRowPerFranchise | src/main/java/com/fulldevcode/franchiseslist/technicaltest/Infraestructure/Interface/IFranchise.java:29-39 | the index has exactly one row per franchise (row count = franchise count), with its name, its branch count, and 0 for a franchise without branches |
| FranchiseQueries.TopExists | src/main/java/com/fulldevcode/franchiseslist/technicaltest/Infraestructure/Interface/IFranchise.java:41-64 | every branch with products has a highest-stock, lowest-id product |
| FranchiseQueries.TopUnique | src/main/java/com/fulldevcode/franchiseslist/technicaltest/Infraestructure/Interface/IFranchise.java:41-64 | that product is unique |
| FranchiseQueries.QualifiesIffTop | src/main/java/com/fulldevcode/franchiseslist/technicaltest/Infraestructure/Interface/IFranchise.java:41-64 | a product passes the query's WHERE clause (MAX stock, then MIN id at that stock, branch of the franchise) iff it is the top product of a branch of that franchise |
| FranchiseQueries.MaxProductsIsTopPerBranch | src/main/java/com/fulldevcode/franchiseslist/technicaltest/Infraestructure/Interface/IFranchise.java:41-64 | the report equals the set of (branch, top product) rows over the franchise's branches |
| FranchiseQueries.MaxProductsRows | src/main/java/com/fulldevcode/franchiseslist/technicaltest/Infraestructure/Interface/IFranchise.java:41-64 | each report row names a branch of the franchise, with its name, and a top product's name and stock, which no product of that branch exceeds; an unknown franchise gives no rows |
| FranchiseQueries.MaxProductsOneRowPerStockedBranch | src/main/java/com/fulldevcode/franchiseslist/technicaltest/Infraestructure/Interface/IFranchise.java:41-64 | each branch with products yields exactly one row; a branch without products yields none; ties on stock cannot yield two rows |
| FranchiseQueries.TieGoesToLowestId | src/main/java/com/fulldevcode/franchiseslist/technicaltest/Infraestructure/Interface/IFranchise.java:56-61 | with products 5 and 3 both at stock 10 in one branch, the report names product 3 |
| BranchQueries.FindByName | src/main/java/com/fulldevcode/franchiseslist/technicaltest/Infraestructure/Interface/IBranch.java:16-21 | finds only branches of the given franchise; `FindByNameMatches` states what it finds |
| BranchQueries.FindByIdName | src/main/java/com/fulldevcode/franchiseslist/technicaltest/Infraestructure/Interface/IBranch.java:23-28 | finds only branches of the given franchise, never the given id; `FindByIdNameExcludesSelf` relates it to `FindByName` |
| BranchQueries.IndexBranch | src/main/java/com/fulldevcode/franchiseslist/technicaltest/Infraestructure/Interface/IBranch.java:30-42 | every row is a branch of the franchise, and an unknown franchise has no rows; `IndexBranchOneRowPerBranch` states one row per branch with its product count |
| BranchQueries.FindByNameMatches | src/main/java/com/fulldevcode/franchiseslist/technicaltest/Infraestructure/Interface/IBranch.java:16-21 | `FindByName` finds something iff the franchise has a branch whose name equals the argument up to case; with unique names at most one |
| BranchQueries.FindByIdNameExcludesSelf | src/main/java/com/fulldevcode/franchiseslist/technicaltest/Infraestructure/Interface/IBranch.java:23-28 | `FindByIdName` is `FindByName` minus the given id; a branch keeping its name in its franchise never clashes with itself |
| BranchQueries.FindByNameAfterWrite | src/main/java/com/fulldevcode/franchiseslist/technicaltest/Infraestructure/Interface/IBranch.java:16-21 | writing one branch row changes what `FindByName` finds only at that row's id |
| BranchQueries.IndexBranchRows | src/main/java/com/fulldevcode/franchiseslist/technicaltest/Infraestructure/Interface/IBranch.java:30-42 | every row describes a branch of the franchise, with its name, its product count and the franchise's name |
| BranchQueries.NoProductsIffZero | src/main/java/com/fulldevcode/franchiseslist/technicaltest/Infraestructure/Interface/IBranch.java:30-42 | the LEFT JOIN count is zero exactly when no product references the branch |
| BranchQueries.IndexBranchOneRowPerBranch | src/main/java/com/fulldevcode/franchiseslist/technicaltest/Infraestructure/Interface/IBranch.java:30-42 | for an existing franchise, exactly one row per branch of it (row count = branch count), with 0 for a branch without products; for an unknown franchise, no rows |
| ProductQueries.FindByName | src/main/java/com/fulldevcode/franchiseslist/technicaltest/Infraestructure/Interface/IProduct.java:15-21 | finds only products of the given branch; `FindByNameMatches` states what it finds |
| ProductQueries.FindByNameId | src/main/java/com/fulldevcode/franchiseslist/technicaltest/Infraestructure/Interface/IProduct.java:23-30 | finds only products of the given branch, never the given id; `FindByNameIdExcludesSelf` relates it to `FindByName` |
| ProductQueries.IndexProduct | src/main/java/com/fulldevcode/franchiseslist/technicaltest/Infraestructure/Interface/IProduct.java:32-42 | every row is a product of the branch, and an unknown branch has no rows; `IndexProductOneRowPerProduct` states one row per product |
| ProductQueries.FindByNameMatches | src/main/java/com/fulldevcode/franchiseslist/technicaltest/Infraestructure/Interface/IProduct.java:15-21 | `findByName` finds something iff the branch has a product whose name equals the argument up to case; with unique names at most one |
| ProductQueries.FindByNameIdExcludesSelf | src/main/java/com/fulldevcode/franchiseslist/technicaltest/Infraestructure/Interface/IProduct.java:23-30 | `findByNameId` is `findByName` minus the given id; a product keeping its name in its branch never clashes with itself |
| ProductQueries.FindByNameAfterWrite | src/main/java/com/fulldevcode/franchiseslist/technicaltest/Infraestructure/Interface/IProduct.java:15-21 | writing one product row changes what `findByName` finds only at that row's id |
| ProductQueries.IndexProductOneRowPerProduct | src/main/java/com/fulldevcode/franchiseslist/technicaltest/Infraestructure/Interface/IProduct.java:32-42 | for an existing branch, exactly one row per product of it, with its name, its stock and the branch's name; for an unknown branch, no rows |
| Persistence.Store.constructor | src/main/java/com/fulldevcode/franchiseslist/technicaltest/Infraestructure/Models/FranchiseEntity.java:19-21 | an empty database whose IDENTITY columns start at 1 |
| Persistence.Store.InsertFranchise | src/main/java/com/fulldevcode/franchiseslist/technicaltest/Infraestructure/Models/FranchiseEntity.java:19-24 | a new franchise is stored under the next franchise id, which no row uses, and that counter advances by one while the branch and product counters stay; a name over 100 characters changes nothing, counters included |
| Persistence.Store.UpdateFranchise | src/main/java/com/fulldevcode/franchiseslist/technicaltest/Infraestructure/Models/FranchiseEntity.java:23-24 | a fetched franchise's row is overwritten unless the name exceeds 100 characters; no IDENTITY counter changes |
| Persistence.Store.DeleteFranchise | src/main/java/com/fulldevcode/franchiseslist/technicaltest/Infraestructure/Models/FranchiseEntity.java:26-27 | the tables become the franchise cascade of the old tables; integrity and id bounds are kept; no IDENTITY counter changes, so the deleted id stays below every id handed out later |
| Persistence.Store.InsertBranch | src/main/java/com/fulldevcode/franchiseslist/technicaltest/Infraestructure/Models/BranchEntity.java:19-28 | a new branch of an existing franchise is stored under the next branch id, which no row uses, and that counter advances by one while the other two stay; a name over 100 characters changes nothing, counters included |
| Persistence.Store.UpdateBranch | src/main/java/com/fulldevcode/franchiseslist/technicaltest/Infraestructure/Models/BranchEntity.java:23-28 | a fetched branch is overwritten, possibly with another existing franchise, unless the name exceeds 100 characters; no IDENTITY counter changes |
| Persistence.Store.DeleteBranch | src/main/java/com/fulldevcode/franchiseslist/technicaltest/Infraestructure/Models/BranchEntity.java:30-31 | the tables become the branch cascade of the old tables; no IDENTITY counter changes, so the deleted id stays below every id handed out later |
| Persistence.Store.InsertProduct | src/main/java/com/fulldevcode/franchiseslist/technicaltest/Domain/Services/ProductService.java:130-135 | a new product of an existing branch is stored under the next product id, which no row uses; that counter advances by one and the other two stay |
| Persistence.Store.UpdateProduct | src/main/java/com/fulldevcode/franchiseslist/technicaltest/Domain/Services/ProductService.java:196-200 | a fetched product's row is overwritten, possibly with another existing branch; no IDENTITY counter changes |
| Persistence.Store.DeleteProduct | src/main/java/com/fulldevcode/franchiseslist/technicaltest/Domain/Services/ProductService.java:239-240 | only that product's row is removed; no IDENTITY counter changes, so the deleted id stays below every id handed out later |
| FranchiseServices.IndexFranchise | src/main/java/com/fulldevcode/franchiseslist/technicaltest/Domain/Services/FranchiseService.java:32-49 | succeeds exactly when the store works, with data exactly on success; `SearchByIdAgreesWithIndex` relates it to the lookup by id |
| FranchiseServices.SearchFranchiseById | src/main/java/com/fulldevcode/franchiseslist/technicaltest/Domain/Services/FranchiseService.java:62-86 | succeeds exactly when the store works and the franchise exists, and then answers that id; `SearchByIdAgreesWithIndex` states that it agrees with the index |
| FranchiseServices.GetBranchMaxProducts | src/main/java/com/fulldevcode/franchiseslist/technicaltest/Domain/Services/FranchiseService.java:235-260 | succeeds exactly when the store works and the franchise exists; `BranchMaxProductsReportsTop` states what the report holds |
| FranchiseServices.CreateOutcome | src/main/java/com/fulldevcode/franchiseslist/technicaltest/Domain/Services/FranchiseService.java:101-129 | a failure writes nothing and carries no data; a success adds exactly the new id to the franchises and answers it; `CreateDecision` and `CreateRoundTrip` state when and what |
| FranchiseServices.UpdateOutcome | src/main/java/com/fulldevcode/franchiseslist/technicaltest/Domain/Services/FranchiseService.java:146-182 | a failure writes nothing; a success touches only an existing franchise's row; `UpdateDecision` and `UpdateRoundTrip` state when and what |
| FranchiseServices.DeleteOutcome | src/main/java/com/fulldevcode/franchiseslist/technicaltest/Domain/Services/FranchiseService.java:195-221 | a failure writes nothing; a success removes an existing franchise and answers its id; `DeleteEffect` states the cascade |
| FranchiseServices.ClashIsDuplicate | src/main/java/com/fulldevcode/franchiseslist/technicaltest/Domain/Services/FranchiseService.java:105-111 | with unique names, a non-empty result of either lookup is reported as `DuplicateName` |
| FranchiseServices.SearchByIdAgreesWithIndex | src/main/java/com/fulldevcode/franchiseslist/technicaltest/Domain/Services/FranchiseService.java:62-86 | `SearchFranchiseById` succeeds iff the store works and the index has a row with that id, answering that row's name; otherwise `StorageFailure` or `NotFound`; `IndexFranchise` fails only on a store failure |
| FranchiseServices.CreateDecision | src/main/java/com/fulldevcode/franchiseslist/technicaltest/Domain/Services/FranchiseService.java:101-129 | create succeeds iff no store failure, no franchise has the same name up to case, and the name fits; otherwise no write and `StorageFailure`, `DuplicateName` or `StorageFailure`, in that order |
| FranchiseServices.CreateRoundTrip | src/main/java/com/fulldevcode/franchiseslist/technicaltest/Domain/Services/FranchiseService.java:113-117 | on success only the new row under the fresh id is added; reading it by id answers the creation's response; it is the only match for its name; the index lists it with 0 branches |
| FranchiseServices.CreateKeepsInvariants | src/main/java/com/fulldevcode/franchiseslist/technicaltest/Domain/Services/FranchiseService.java:101-129 | create keeps integrity and name uniqueness |
| FranchiseServices.UpdateDecision | src/main/java/com/fulldevcode/franchiseslist/technicaltest/Domain/Services/FranchiseService.java:146-182 | update succeeds iff no store failure, the franchise exists, no other franchise has the name up to case, and it fits; otherwise no write and the matching message |
| FranchiseServices.KeepingOwnNameSucceeds | src/main/java/com/fulldevcode/franchiseslist/technicaltest/Domain/Services/FranchiseService.java:158-164 | renaming a franchise to its own name (or a case variant of it) is not a duplicate |
| FranchiseServices.UpdateRoundTrip | src/main/java/com/fulldevcode/franchiseslist/technicaltest/Domain/Services/FranchiseService.java:166-170 | on success only the franchise's name changes; it keeps its branches; reading it back answers the update's response; it is the only match for the new name |
| FranchiseServices.UpdateKeepsInvariants | src/main/java/com/fulldevcode/franchiseslist/technicaltest/Domain/Services/FranchiseService.java:146-182 | update keeps integrity and name uniqueness |
| FranchiseServices.DeleteEffect | src/main/java/com/fulldevcode/franchiseslist/technicaltest/Domain/Services/FranchiseService.java:195-221 | delete succeeds iff no store failure and the franchise exists; it answers the deleted franchise, which is then `NotFound` and has no branches; invariants are kept; on failure nothing changes |
| FranchiseServices.DeleteShrinksIndex | src/main/java/com/fulldevcode/franchiseslist/technicaltest/Domain/Services/FranchiseService.java:207-208 | a successful delete makes the franchise index exactly one row shorter |
| FranchiseServices.BranchMaxProductsReportsTop | src/main/java/com/fulldevcode/franchiseslist/technicaltest/Domain/Services/FranchiseService.java:235-260 | the report succeeds iff no store failure and the franchise exists (otherwise `NotFound`); its data is one top-product row per stocked branch of the franchise |
| FranchiseServices.FranchiseService.constructor | src/main/java/com/fulldevcode/franchiseslist/technicaltest/Domain/Services/FranchiseService.java:17-20 | the service works on the given store |
| FranchiseServices.FranchiseService.CreateFranchise | src/main/java/com/fulldevcode/franchiseslist/technicaltest/Domain/Services/FranchiseService.java:101-129 | the new tables and the response are `CreateOutcome` of the old tables and the next IDENTITY value; the store stays consistent; its own IDENTITY counter advances exactly when the create succeeds, and the other two stay |
| FranchiseServices.FranchiseService.UpdateFranchise | src/main/java/com/fulldevcode/franchiseslist/technicaltest/Domain/Services/FranchiseService.java:146-182 | the new tables and the response are `UpdateOutcome` of the old tables; the store stays consistent; no IDENTITY counter changes |
| FranchiseServices.FranchiseService.DeleteFranchise | src/main/java/com/fulldevcode/franchiseslist/technicaltest/Domain/Services/FranchiseService.java:195-221 | the new tables and the response are `DeleteOutcome` (the cascade) of the old tables; the store stays consistent; no IDENTITY counter changes |
| BranchServices.BranchIndex | src/main/java/com/fulldevcode/franchiseslist/technicaltest/Domain/Services/BranchService.java:39-56 | succeeds exactly when the store works, with data exactly on success; `SearchByIdAgreesWithIndex` relates it to the lookup by id |
| BranchServices.SearchById | src/main/java/com/fulldevcode/franchiseslist/technicaltest/Domain/Services/BranchService.java:69-93 | succeeds exactly when the store works and the branch exists, and then answers that id; `SearchByIdAgreesWithIndex` states that it agrees with the index |
| BranchServices.CreateOutcome | src/main/java/com/fulldevcode/franchiseslist/technicaltest/Domain/Services/BranchService.java:109-146 | a failure writes nothing; a success needs an existing franchise and adds exactly the new id to the branches; `CreateDecision` and `CreateRoundTrip` state when and what |
| BranchServices.UpdateOutcome | src/main/java/com/fulldevcode/franchiseslist/technicaltest/Domain/Services/BranchService.java:164-209 | a failure writes nothing; a success needs the branch and the target franchise to exist and touches only that branch's row; `UpdateDecision` and `UpdateRoundTrip` state when and what |
| BranchServices.DeleteOutcome | src/main/java/com/fulldevcode/franchiseslist/technicaltest/Domain/Services/BranchService.java:222-247 | a failure writes nothing; a success removes an existing branch and leaves the franchises alone; `DeleteEffect` states the cascade |
| BranchServices.ClashIsDuplicate | src/main/java/com/fulldevcode/franchiseslist/technicaltest/Domain/Services/BranchService.java:113-119 | with unique names, a non-empty result of either branch lookup is reported as `DuplicateName` |
| BranchServices.SearchByIdAgreesWithIndex | src/main/java/com/fulldevcode/franchiseslist/technicaltest/Domain/Services/BranchService.java:39-93 | `SearchById` succeeds iff no store failure and the branch exists, and its franchise's index lists it under the same name; `branchIndex` fails only on a store failure and answers an empty list for an unknown franchise |
| BranchServices.CreateDecision | src/main/java/com/fulldevcode/franchiseslist/technicaltest/Domain/Services/BranchService.java:109-146 | create succeeds iff no store failure, no same-named branch (up to case) in the franchise, the franchise exists, and the name fits; failures in that order with `DuplicateName` before `ParentNotFound`; no write |
| BranchServices.CreateRoundTrip | src/main/java/com/fulldevcode/franchiseslist/technicaltest/Domain/Services/BranchService.java:129-134 | on success only the new branch is added, under the fresh id; reading it back answers the creation's response; it is the only match in its franchise; the franchise's index lists it with 0 products |
| BranchServices.CreateKeepsInvariants | src/main/java/com/fulldevcode/franchiseslist/technicaltest/Domain/Services/BranchService.java:109-146 | create keeps integrity and name uniqueness |
| BranchServices.UpdateDecision | src/main/java/com/fulldevcode/franchiseslist/technicaltest/Domain/Services/BranchService.java:164-209 | update succeeds iff no store failure, the branch exists, no other branch of the target franchise has the name up to case, the target franchise exists, and the name fits; otherwise no write and the matching message |
| BranchServices.KeepingOwnNameSucceeds | src/main/java/com/fulldevcode/franchiseslist/technicaltest/Domain/Services/BranchService.java:176-182 | keeping a branch's own name (or a case variant) in its own franchise is not a duplicate |
| BranchServices.UpdateRoundTrip | src/main/java/com/fulldevcode/franchiseslist/technicaltest/Domain/Services/BranchService.java:192-197 | on success only the branch's row changes; it keeps its products, now belongs to the target franchise, reads back as answered, and is the only match there |
| BranchServices.UpdateKeepsInvariants | src/main/java/com/fulldevcode/franchiseslist/technicaltest/Domain/Services/BranchService.java:164-209 | update keeps integrity and name uniqueness |
| BranchServices.DeleteEffect | src/main/java/com/fulldevcode/franchiseslist/technicaltest/Domain/Services/BranchService.java:222-247 | delete succeeds iff no store failure and the branch exists; it answers the deleted branch, which is then `NotFound` with no products; franchises unchanged; invariants kept |
| BranchServices.BranchService.constructor | src/main/java/com/fulldevcode/franchiseslist/technicaltest/Domain/Services/BranchService.java:22-26 | the service works on the given store |
| BranchServices.BranchService.CreateBranch | src/main/java/com/fulldevcode/franchiseslist/technicaltest/Domain/Services/BranchService.java:109-146 | the new tables and the response are `CreateOutcome` of the old tables and the next IDENTITY value; the store stays consistent; its own IDENTITY counter advances exactly when the create succeeds, and the other two stay |
| BranchServices.BranchService.UpdateBranch | src/main/java/com/fulldevcode/franchiseslist/technicaltest/Domain/Services/BranchService.java:164-209 | the new tables and the response are `UpdateOutcome` of the old tables; the store stays consistent; no IDENTITY counter changes |
| BranchServices.BranchService.DeleteBranch | src/main/java/com/fulldevcode/franchiseslist/technicaltest/Domain/Services/BranchService.java:222-247 | the new tables and the response are `DeleteOutcome` (the cascade) of the old tables; the store stays consistent; no IDENTITY counter changes |
| ProductServices.IndexProducts | src/main/java/com/fulldevcode/franchiseslist/technicaltest/Domain/Services/ProductService.java:40-57 | succeeds exactly when the store works, with data exactly on success; `SearchByIdAgreesWithIndex` relates it to the lookup by id |
| ProductServices.SearchById | src/main/java/com/fulldevcode/franchiseslist/technicaltest/Domain/Services/ProductService.java:70-94 | succeeds exactly when the store works and the product exists, and then answers that id; `SearchByIdAgreesWithIndex` states that it agrees with the index |
| ProductServices.CreateOutcome | src/main/java/com/fulldevcode/franchiseslist/technicaltest/Domain/Services/ProductService.java:110-150 | a failure writes nothing; a success needs an existing branch and adds exactly the new id to the products; `CreateDecision` and `CreateRoundTrip` state when and what |
| ProductServices.UpdateOutcome | src/main/java/com/fulldevcode/franchiseslist/technicaltest/Domain/Services/ProductService.java:168-214 | a failure writes nothing; a success needs the product and the target branch to exist and touches only that product's row; `UpdateDecision` and `UpdateRoundTrip` state when and what |
| ProductServices.DeleteOutcome | src/main/java/com/fulldevcode/franchiseslist/technicaltest/Domain/Services/ProductService.java:227-253 | a failure writes nothing; a success removes an existing product and leaves franchises and branches alone; `DeleteEffect` states it |
| ProductServices.ClashIsDuplicate | src/main/java/com/fulldevcode/franchiseslist/technicaltest/Domain/Services/ProductService.java:114-120 | with unique names, a non-empty result of either product lookup is reported as `DuplicateName` |
| ProductServices.SearchByIdAgreesWithIndex | src/main/java/com/fulldevcode/franchiseslist/technicaltest/Domain/Services/ProductService.java:40-94 | `SearchById` succeeds iff no store failure and the product exists, and its branch's index lists it with the same name and stock; `IndexProducts` fails only on a store failure and answers an empty list for an unknown branch |
| ProductServices.CreateDecision | src/main/java/com/fulldevcode/franchiseslist/technicaltest/Domain/Services/ProductService.java:110-150 | create succeeds iff no store failure, no same-named product (up to case) in the branch, and the branch exists; `DuplicateName` is reported before `ParentNotFound`; no write on failure |
| ProductServices.CreateRoundTrip | src/main/java/com/fulldevcode/franchiseslist/technicaltest/Domain/Services/ProductService.java:130-137 | on success only the new product (name, stock, branch) is added, under the fresh id; reading it back answers the creation's response; it is the only match in its branch and is listed in the branch's index |
| ProductServices.CreateKeepsInvariants | src/main/java/com/fulldevcode/franchiseslist/technicaltest/Domain/Services/ProductService.java:110-150 | create keeps integrity and name uniqueness |
| ProductServices.UpdateDecision | src/main/java/com/fulldevcode/franchiseslist/technicaltest/Domain/Services/ProductService.java:168-214 | update succeeds iff no store failure, the product exists, no other product of the target branch has the name up to case, and the target branch exists; otherwise no write and the matching message |
| ProductServices.StockChangeSucceeds | src/main/java/com/fulldevcode/franchiseslist/technicaltest/Domain/Services/ProductService.java:180-186 | changing only the stock of an existing product never fails when the store works |
| ProductServices.UpdateRoundTrip | src/main/java/com/fulldevcode/franchiseslist/technicaltest/Domain/Services/ProductService.java:196-202 | on success only the product's row changes; it belongs to the target branch, reads back as answered, and is the only match there |
| ProductServices.UpdateKeepsInvariants | src/main/java/com/fulldevcode/franchiseslist/technicaltest/Domain/Services/ProductService.java:168-214 | update keeps integrity and name uniqueness |
| ProductServices.DeleteEffect | src/main/java/com/fulldevcode/franchiseslist/technicaltest/Domain/Services/ProductService.java:227-253 | delete succeeds iff no store failure and the product exists; it answers the deleted product, which is then `NotFound`; only its row is removed; invariants kept |
| ProductServices.ProductService.constructor | src/main/java/com/fulldevcode/franchiseslist/technicaltest/Domain/Services/ProductService.java:23-27 | the service works on the given store |
| ProductServices.ProductService.CreateProduct | src/main/java/com/fulldevcode/franchiseslist/technicaltest/Domain/Services/ProductService.java:110-150 | the new tables and the response are `CreateOutcome` of the old tables and the next IDENTITY value; the store stays consistent; its own IDENTITY counter advances exactly when the create succeeds, and the other two stay |
| ProductServices.ProductService.UpdateProduct | src/main/java/com/fulldevcode/franchiseslist/technicaltest/Domain/Services/ProductService.java:168-214 | the new tables and the response are `UpdateOutcome` of the old tables; the store stays consistent; no IDENTITY counter changes |
| ProductServices.ProductService.DeleteProduct | src/main/java/com/fulldevcode/franchiseslist/technicaltest/Domain/Services/ProductService.java:227-253 | the new tables and the response are `DeleteOutcome` of the old tables; the store stays consistent; no IDENTITY counter changes |
| Lifecycle.DeletedFranchiseLeavesNothingBehind | src/main/java/com/fulldevcode/franchiseslist/technicaltest/Domain/Services/FranchiseService.java:195-221 | after a franchise delete, its branches and their products are `NotFound` through their services, its branch index is empty, and its report is `NotFound` |
| Lifecycle.DeletedBranchLeavesNothingBehind | src/main/java/com/fulldevcode/franchiseslist/technicaltest/Domain/Services/BranchService.java:222-247 | after a branch delete, its products are `NotFound`, its product index is empty, and its franchise still exists |
| Lifecycle.WalkthroughState | src/main/java/com/fulldevcode/franchiseslist/technicaltest/Infraestructure/Interface/IFranchise.java:41-64 | with Acme / North / Widget(5), "north" clashes with "North", the report is the one row (North, Widget, 5), and North's product index is the one row (Widget, 5, North) |
| Lifecycle.SeedAcme | src/main/java/com/fulldevcode/franchiseslist/technicaltest/Domain/Services/FranchiseService.java:101-129 | on a fresh store, creating Acme, North and Widget through the three services stores each under id 1 and keeps the store consistent |
| Lifecycle.Walkthrough | src/main/java/com/fulldevcode/franchiseslist/technicaltest/Domain/Services/BranchService.java:113-119 | after the seeding, North's product index lists Widget under id 1, a second branch "north" is refused with `DuplicateName`, and the report is the single North row under id 1 |
| Lifecycle.DeletedIdNotReissued | src/main/java/com/fulldevcode/franchiseslist/technicaltest/Infraestructure/Models/FranchiseEntity.java:19-21 | franchise "A" is created under id 1 and deleted; the next franchise "B" gets id 2, so a deleted id is not handed out again |

## Left out

- HTTP controllers and routing: they only forward to the services.
- The envelope's `timestamp`, read from the clock: not modelled.
- Message texts: the Spanish messages, including the exception text appended to the generic error message, are replaced by tags.
- Null arguments: not modelled. A null id makes `findById` throw, and a null name violates `nullable = false`; both would give an `Error`.
- `ProductEntity.java` is not part of this model. Any column length or other constraint on products is
  therefore not modelled: product names have no length limit, and stock is any integer.
- Orphan removal through the `branches`/`products` collections: not modelled. The services never
  add to or remove from those collections. Moving a branch or product to another parent is modelled as
  the change of its foreign key.
- Concurrency and transactions: not modelled. Each service call runs as one atomic step, so the race
  between the name check and the write is out of scope.
- Which repository call throws: not modelled. Every store exception is the one `fault` flag, because
  any failure ends in an error response with nothing written. An IDENTITY value consumed by a failed
  insert is not modelled; the counter only advances on success.
- Ids: unbounded integers, so the overflow of the 32-bit `Integer` IDENTITY column is not modelled.
- `LOWER`: folds the ASCII letters A–Z only. The database's handling of other characters is not modelled.
- List order: lists are sets of rows, because no query has an `ORDER BY` and the order is unspecified.
  Duplicate rows cannot occur, because every row carries its own id.
- Enforcement of the column length: modelled as a failing save. Whether the database enforces
  `length = 100` depends on the database used; that is not modelled.
- Read operations: not methods of the service classes. They change nothing, so they are modelled as
  functions of the store's contents.
