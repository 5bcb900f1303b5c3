/**
 * The JPQL queries of the franchise repository, each as a function of the
 * store's tables. A query whose Java result is a list yields the set of its rows
 * (none of them orders its rows); a query whose Java result is an Optional yields
 * the set of matching ids, and the lemmas show that under the uniqueness
 * invariant that set has at most one element.
 */
module FranchiseQueries {
  import opened Dto
  import opened Entities
  import Aggregates

  /** `SearchName`: franchises whose lower-cased name is the lower-cased argument. */
  function SearchName(t: Tables, name: string): (r: set<int>)
    ensures r <= t.franchises.Keys
  {
    set f | f in t.franchises && SameName(t.franchises[f].name, name)
  }

  /** `SearchNameById`: as `SearchName`, but never the franchise `id`. */
  function SearchNameById(t: Tables, name: string, id: int): (r: set<int>)
    ensures r <= t.franchises.Keys && id !in r
  {
    set f | f in t.franchises && SameName(t.franchises[f].name, name) && f != id
  }

  /**
   * `SearchName` reports a franchise exactly when some franchise's name equals
   * the argument up to case; with unique names the Optional it fills is
   * well-defined (at most one match).
   */
  lemma SearchNameMatches(t: Tables, name: string)
    ensures SearchName(t, name) != {} <==>
      exists f :: f in t.franchises && LowerStr(t.franchises[f].name) == LowerStr(name)
    ensures NamesUnique(t) ==> forall f, g :: f in SearchName(t, name) && g in SearchName(t, name) ==> f == g
  {
    if exists f :: f in t.franchises && LowerStr(t.franchises[f].name) == LowerStr(name) {
      var f :| f in t.franchises && LowerStr(t.franchises[f].name) == LowerStr(name);
      assert f in SearchName(t, name);
    }
    if SearchName(t, name) != {} {
      var f := Aggregates.Pick(SearchName(t, name));
    }
  }

  /**
   * `SearchNameById` is `SearchName` without the excluded id, so a franchise
   * that keeps its own name (or changes only its case) never clashes with itself.
   */
  lemma SearchNameByIdExcludesSelf(t: Tables, name: string, id: int)
    ensures SearchNameById(t, name, id) == SearchName(t, name) - {id}
    ensures id !in SearchNameById(t, name, id)
    ensures NamesUnique(t) && id in t.franchises && SameName(t.franchises[id].name, name) ==>
      SearchNameById(t, name, id) == {}
  {
  }

  /**
   * Writing franchise `id` with name `n` changes what `SearchName` finds only at
   * `id`: it is found afterwards exactly when `n` matches the searched name.
   */
  lemma SearchNameAfterWrite(t: Tables, id: int, n: string, name: string)
    ensures SearchName(t.(franchises := t.franchises[id := Franchise(n)]), name) ==
      (SearchName(t, name) - {id}) + (if SameName(n, name) then {id} else {})
  {
  }

  /** The franchise index: per franchise its id, name and `COUNT` of branches (LEFT JOIN). */
  function IndexFranchise(t: Tables): (r: set<FranchiseListDTO>)
    ensures forall row :: row in r ==> row.id in t.franchises
  {
    set f | f in t.franchises :: FranchiseListDTO(f, t.franchises[f].name, |BranchesOf(t, f)|)
  }

  /** Each row of the franchise index describes one franchise and counts its branches. */
  lemma IndexFranchiseRows(t: Tables)
    ensures forall r :: r in IndexFranchise(t) ==>
      r.id in t.franchises && r.name == t.franchises[r.id].name && r.branchesNum == |BranchesOf(t, r.id)|
  {
    forall r | r in IndexFranchise(t)
      ensures r.id in t.franchises && r.name == t.franchises[r.id].name && r.branchesNum == |BranchesOf(t, r.id)|
    {
      var f :| f in t.franchises && r == FranchiseListDTO(f, t.franchises[f].name, |BranchesOf(t, f)|);
    }
  }

  /** A count is zero exactly when no branch references the franchise. */
  lemma NoBranchesIffZero(t: Tables, f: int)
    ensures |BranchesOf(t, f)| == 0 <==> forall b :: b in t.branches ==> t.branches[b].franchiseId != f
  {
    if |BranchesOf(t, f)| != 0 {
      var b := Aggregates.Pick(BranchesOf(t, f));
    } else {
      forall b | b in t.branches ensures t.branches[b].franchiseId != f {
        assert b !in BranchesOf(t, f);
      }
    }
  }

  /** The ids of the index rows are exactly the franchise ids. */
  lemma IndexFranchiseIds(t: Tables)
    ensures (set r | r in IndexFranchise(t) :: r.id) == t.franchises.Keys
  {
    IndexFranchiseRows(t);
    var ids := set r | r in IndexFranchise(t) :: r.id;
    forall f | f in t.franchises ensures f in ids {
      assert FranchiseListDTO(f, t.franchises[f].name, |BranchesOf(t, f)|) in IndexFranchise(t);
    }
  }

  /**
   * The index has exactly one row per franchise: the row ids are the franchise
   * ids, no two rows share an id, and each row carries the franchise's own name
   * and the number of branches referencing it (0 for a franchise without
   * branches, whose row the LEFT JOIN keeps).
   */
  lemma {:induction false} IndexFranchiseOneRowPerFranchise(t: Tables)
    ensures (set r | r in IndexFranchise(t) :: r.id) == t.franchises.Keys
    ensures forall r :: r in IndexFranchise(t) ==>
      && r.id in t.franchises && r.name == t.franchises[r.id].name && r.branchesNum == |BranchesOf(t, r.id)|
      && (r.branchesNum == 0 <==> forall b :: b in t.branches ==> t.branches[b].franchiseId != r.id)
    ensures |IndexFranchise(t)| == |t.franchises|
  {
    var rows := IndexFranchise(t);
    IndexFranchiseRows(t);
    forall r | r in rows
      ensures r.branchesNum == 0 <==> forall b :: b in t.branches ==> t.branches[b].franchiseId != r.id
    {
      NoBranchesIffZero(t, r.id);
    }
    forall f | f in t.franchises ensures exists r :: r in rows && r.id == f {
      assert FranchiseListDTO(f, t.franchises[f].name, |BranchesOf(t, f)|) in rows;
    }
    Aggregates.KeyInjectiveSize(rows, (r: FranchiseListDTO) => r.id, t.franchises.Keys);
    IndexFranchiseIds(t);
  }

  /** One row of the top-stock report: product `p` of branch `b`. */
  function MaxRow(t: Tables, b: int, p: int): BranchMaxProductsListDTO
    requires b in t.branches && p in t.products
  {
    BranchMaxProductsListDTO(b, t.branches[b].name, t.products[p].name, t.products[p].stock)
  }

  /** The stock values of branch `b`'s products (the group of the `MAX` subquery). */
  function StocksOf(t: Tables, b: int): (s: set<int>)
    ensures forall p :: p in ProductsOf(t, b) ==> t.products[p].stock in s
  {
    set p | p in ProductsOf(t, b) :: t.products[p].stock
  }

  /** The ids of branch `b`'s products whose stock is `stock` (the group of the `MIN` subquery). */
  function IdsWithStock(t: Tables, b: int, stock: int): (s: set<int>)
    ensures forall p :: p in ProductsOf(t, b) && t.products[p].stock == stock ==> p in s
  {
    set p | p in ProductsOf(t, b) && t.products[p].stock == stock
  }

  /**
   * The WHERE clause of `SearchBranchesMaxProducts` for product `p`: its branch
   * belongs to franchise `fid` (joined to an existing franchise), its stock is the
   * `MAX` stock of its branch, and its id is the `MIN` id among the products of
   * its branch with that same stock.
   */
  predicate Qualifies(t: Tables, fid: int, p: int)
  {
    && p in t.products
    && var b := t.products[p].branchId;
    && b in t.branches && t.branches[b].franchiseId == fid && fid in t.franchises
    && p in ProductsOf(t, b)
    && t.products[p].stock == Aggregates.Max(StocksOf(t, b))
    && p == Aggregates.Min(IdsWithStock(t, b, t.products[p].stock))
  }

  /** `SearchBranchesMaxProducts`, as the query is written. */
  function SearchBranchesMaxProducts(t: Tables, fid: int): (r: set<BranchMaxProductsListDTO>)
    ensures fid !in t.franchises ==> r == {}
    ensures forall row :: row in r ==> row.id in BranchesOf(t, fid)
  {
    set p | p in t.products && Qualifies(t, fid, p) :: MaxRow(t, t.products[p].branchId, p)
  }

  /**
   * The reference meaning of "the highest-stock product of a branch, ties broken
   * by the lowest id": `p` is a product of `b` and every product of `b` has
   * either less stock, or the same stock and an id no smaller than `p`'s.
   */
  ghost predicate IsTop(t: Tables, b: int, p: int)
  {
    && p in ProductsOf(t, b)
    && forall q :: q in ProductsOf(t, b) ==>
         t.products[q].stock < t.products[p].stock ||
         (t.products[q].stock == t.products[p].stock && p <= q)
  }

  /** Every branch with at least one product has a top product. */
  lemma {:induction false} TopExists(t: Tables, b: int) returns (p: int)
    requires ProductsOf(t, b) != {}
    ensures IsTop(t, b, p)
  {
    var m := Aggregates.Max(StocksOf(t, b));
    var w :| w in ProductsOf(t, b) && t.products[w].stock == m;
    assert w in IdsWithStock(t, b, m);
    p := Aggregates.Min(IdsWithStock(t, b, m));
    forall q | q in ProductsOf(t, b)
      ensures t.products[q].stock < t.products[p].stock ||
              (t.products[q].stock == t.products[p].stock && p <= q)
    {
      assert t.products[q].stock in StocksOf(t, b);
    }
  }

  /** The top product of a branch is unique. */
  lemma TopUnique(t: Tables, b: int, p: int, q: int)
    requires IsTop(t, b, p) && IsTop(t, b, q)
    ensures p == q
  {
  }

  /** A product qualifies for the query exactly when it is the top product of a branch of `fid`. */
  lemma {:induction false} QualifiesIffTop(t: Tables, fid: int, p: int)
    requires p in t.products
    ensures Qualifies(t, fid, p) <==>
      var b := t.products[p].branchId;
      b in t.branches && t.branches[b].franchiseId == fid && fid in t.franchises && IsTop(t, b, p)
  {
    var b := t.products[p].branchId;
    if b in t.branches && t.branches[b].franchiseId == fid && fid in t.franchises {
      assert p in ProductsOf(t, b);
      var m := Aggregates.Max(StocksOf(t, b));
      var ids := IdsWithStock(t, b, t.products[p].stock);
      assert p in ids;
      if Qualifies(t, fid, p) {
        forall q | q in ProductsOf(t, b)
          ensures t.products[q].stock < t.products[p].stock ||
                  (t.products[q].stock == t.products[p].stock && p <= q)
        {
          if t.products[q].stock == t.products[p].stock {
            assert q in ids;
          }
        }
      }
      if IsTop(t, b, p) {
        var w :| w in ProductsOf(t, b) && t.products[w].stock == m;
        assert t.products[p].stock == m;
        var lo := Aggregates.Min(ids);
        assert lo in ProductsOf(t, b);
      }
    }
  }

  /**
   * The query as written computes "max per group, tie broken by the lowest id":
   * its rows are exactly one row per branch of `fid` that has products, reporting
   * that branch's top product.
   */
  lemma {:induction false} MaxProductsIsTopPerBranch(t: Tables, fid: int)
    ensures SearchBranchesMaxProducts(t, fid) ==
      set b, p | b in BranchesOf(t, fid) && p in ProductsOf(t, b) && fid in t.franchises && IsTop(t, b, p) :: MaxRow(t, b, p)
  {
    var lhs := SearchBranchesMaxProducts(t, fid);
    var rhs := set b, p | b in BranchesOf(t, fid) && p in ProductsOf(t, b) && fid in t.franchises && IsTop(t, b, p) :: MaxRow(t, b, p);
    forall row | row in lhs ensures row in rhs {
      var p :| p in t.products && Qualifies(t, fid, p) && row == MaxRow(t, t.products[p].branchId, p);
      QualifiesIffTop(t, fid, p);
    }
    forall row | row in rhs ensures row in lhs {
      var b, p :| b in BranchesOf(t, fid) && p in ProductsOf(t, b) && fid in t.franchises && IsTop(t, b, p) && row == MaxRow(t, b, p);
      QualifiesIffTop(t, fid, p);
    }
  }

  /**
   * What each row of the report promises: the branch belongs to `fid`, the row
   * names a product of that branch, no product of the branch has more stock, and
   * among the products with that stock the reported one has the smallest id.
   */
  lemma {:induction false} MaxProductsRows(t: Tables, fid: int)
    ensures forall row :: row in SearchBranchesMaxProducts(t, fid) ==>
      && row.id in BranchesOf(t, fid)
      && row.nameBranch == t.branches[row.id].name
      && exists p :: IsTop(t, row.id, p) && row.nameProduct == t.products[p].name && row.stock == t.products[p].stock
    ensures forall row, q :: row in SearchBranchesMaxProducts(t, fid) && q in ProductsOf(t, row.id) ==>
      t.products[q].stock <= row.stock
    ensures fid !in t.franchises ==> SearchBranchesMaxProducts(t, fid) == {}
  {
    MaxProductsIsTopPerBranch(t, fid);
    forall row | row in SearchBranchesMaxProducts(t, fid)
      ensures exists p :: IsTop(t, row.id, p) && row.nameProduct == t.products[p].name && row.stock == t.products[p].stock
    {
      var b, p :| b in BranchesOf(t, fid) && p in ProductsOf(t, b) && fid in t.franchises && IsTop(t, b, p) && row == MaxRow(t, b, p);
    }
  }

  /**
   * Each branch of `fid` with at least one product contributes exactly one row
   * (at most one product of a branch passes the WHERE clause), and a branch with
   * no products contributes none (the inner join drops it).
   */
  lemma {:induction false} MaxProductsOneRowPerStockedBranch(t: Tables, fid: int)
    requires fid in t.franchises
    ensures forall b :: b in BranchesOf(t, fid) && ProductsOf(t, b) != {} ==>
      exists row :: row in SearchBranchesMaxProducts(t, fid) && row.id == b
    ensures forall row :: row in SearchBranchesMaxProducts(t, fid) ==> ProductsOf(t, row.id) != {}
    ensures forall p, q ::
      Qualifies(t, fid, p) && Qualifies(t, fid, q) && t.products[p].branchId == t.products[q].branchId ==>
        p == q
    ensures forall r1, r2 ::
      r1 in SearchBranchesMaxProducts(t, fid) && r2 in SearchBranchesMaxProducts(t, fid) && r1.id == r2.id ==>
        r1 == r2
  {
    MaxProductsIsTopPerBranch(t, fid);
    var rows := SearchBranchesMaxProducts(t, fid);
    forall b | b in BranchesOf(t, fid) && ProductsOf(t, b) != {}
      ensures exists row :: row in rows && row.id == b
    {
      var p := TopExists(t, b);
      assert MaxRow(t, b, p) in rows;
    }
    forall row | row in rows ensures ProductsOf(t, row.id) != {} {
      var b, p :| b in BranchesOf(t, fid) && p in ProductsOf(t, b) && fid in t.franchises && IsTop(t, b, p) && row == MaxRow(t, b, p);
    }
    forall p, q | Qualifies(t, fid, p) && Qualifies(t, fid, q) && t.products[p].branchId == t.products[q].branchId
      ensures p == q
    {
      QualifiesIffTop(t, fid, p);
      QualifiesIffTop(t, fid, q);
      TopUnique(t, t.products[p].branchId, p, q);
    }
    forall r1, r2 | r1 in rows && r2 in rows && r1.id == r2.id ensures r1 == r2 {
      var b1, p1 :| b1 in BranchesOf(t, fid) && p1 in ProductsOf(t, b1) && fid in t.franchises && IsTop(t, b1, p1) && r1 == MaxRow(t, b1, p1);
      var b2, p2 :| b2 in BranchesOf(t, fid) && p2 in ProductsOf(t, b2) && fid in t.franchises && IsTop(t, b2, p2) && r2 == MaxRow(t, b2, p2);
      TopUnique(t, b1, p1, p2);
    }
  }

  /**
   * Ties on the maximum stock go to the lowest id: in a branch holding products
   * 5 and 3, both with stock 10, the report names product 3.
   */
  lemma TieGoesToLowestId()
    ensures var t := Tables(
              map[7 := Franchise("F")],
              map[1 := Branch("X", 7)],
              map[5 := Product("five", 10, 1), 3 := Product("three", 10, 1)]);
      SearchBranchesMaxProducts(t, 7) == {BranchMaxProductsListDTO(1, "X", "three", 10)}
  {
    var t := Tables(
      map[7 := Franchise("F")],
      map[1 := Branch("X", 7)],
      map[5 := Product("five", 10, 1), 3 := Product("three", 10, 1)]);
    assert ProductsOf(t, 1) == {3, 5};
    assert BranchesOf(t, 7) == {1};
    assert IsTop(t, 1, 3);
    MaxProductsIsTopPerBranch(t, 7);
    forall row | row in SearchBranchesMaxProducts(t, 7)
      ensures row == BranchMaxProductsListDTO(1, "X", "three", 10)
    {
      var b, p :| b in BranchesOf(t, 7) && p in ProductsOf(t, b) && IsTop(t, b, p) && row == MaxRow(t, b, p);
      TopUnique(t, 1, p, 3);
    }
    assert MaxRow(t, 1, 3) in SearchBranchesMaxProducts(t, 7);
  }
}
