/**
 * The JPQL queries of the branch repository as functions of the store's tables:
 * the scoped name lookups used by the duplicate checks, and a franchise's branch
 * index with a product count per branch.
 */
module BranchQueries {
  import opened Dto
  import opened Entities
  import Aggregates

  /** `FindByName`: branches of franchise `fid` whose lower-cased name is the lower-cased argument. */
  function FindByName(t: Tables, fid: int, name: string): (r: set<int>)
    ensures r <= BranchesOf(t, fid)
  {
    set b | b in t.branches && t.branches[b].franchiseId == fid && SameName(t.branches[b].name, name)
  }

  /** `FindByIdName`: as `FindByName`, but never the branch `id`. */
  function FindByIdName(t: Tables, fid: int, name: string, id: int): (r: set<int>)
    ensures r <= BranchesOf(t, fid) && id !in r
  {
    set b | b in t.branches && t.branches[b].franchiseId == fid && SameName(t.branches[b].name, name) && b != id
  }

  /**
   * `FindByName` reports a branch exactly when franchise `fid` has a branch whose
   * name equals the argument up to case; with unique names it matches at most one.
   */
  lemma FindByNameMatches(t: Tables, fid: int, name: string)
    ensures FindByName(t, fid, name) != {} <==>
      exists b :: b in t.branches && t.branches[b].franchiseId == fid && LowerStr(t.branches[b].name) == LowerStr(name)
    ensures NamesUnique(t) ==> forall b, c :: b in FindByName(t, fid, name) && c in FindByName(t, fid, name) ==> b == c
  {
    if exists b :: b in t.branches && t.branches[b].franchiseId == fid && LowerStr(t.branches[b].name) == LowerStr(name) {
      var b :| b in t.branches && t.branches[b].franchiseId == fid && LowerStr(t.branches[b].name) == LowerStr(name);
      assert b in FindByName(t, fid, name);
    }
    if FindByName(t, fid, name) != {} {
      var b := Aggregates.Pick(FindByName(t, fid, name));
    }
  }

  /**
   * `FindByIdName` is `FindByName` without the excluded id: a branch that keeps
   * its own name within its own franchise never clashes with itself.
   */
  lemma FindByIdNameExcludesSelf(t: Tables, fid: int, name: string, id: int)
    ensures FindByIdName(t, fid, name, id) == FindByName(t, fid, name) - {id}
    ensures id !in FindByIdName(t, fid, name, id)
    ensures NamesUnique(t) && id in t.branches && t.branches[id].franchiseId == fid &&
            SameName(t.branches[id].name, name) ==>
      FindByIdName(t, fid, name, id) == {}
  {
  }

  /**
   * Writing branch `id` with name `n` into franchise `g` changes what
   * `FindByName` finds only at `id`: it is found afterwards exactly when it now
   * belongs to the searched franchise and `n` matches the searched name.
   */
  lemma FindByNameAfterWrite(t: Tables, id: int, n: string, g: int, fid: int, name: string)
    ensures FindByName(t.(branches := t.branches[id := Branch(n, g)]), fid, name) ==
      (FindByName(t, fid, name) - {id}) + (if g == fid && SameName(n, name) then {id} else {})
  {
  }

  /**
   * `IndexBranch`: per branch of franchise `fid` its id, name, `COUNT` of
   * products (LEFT JOIN) and the name of the franchise (an inner join).
   */
  function IndexBranch(t: Tables, fid: int): (r: set<BranchListDTO>)
    ensures fid !in t.franchises ==> r == {}
    ensures forall row :: row in r ==> row.id in BranchesOf(t, fid)
  {
    set b | b in t.branches && t.branches[b].franchiseId == fid && fid in t.franchises ::
      BranchListDTO(b, t.branches[b].name, |ProductsOf(t, b)|, t.franchises[fid].name)
  }

  /** Each row of the branch index describes one branch of `fid`. */
  lemma IndexBranchRows(t: Tables, fid: int)
    ensures forall r :: r in IndexBranch(t, fid) ==>
      && r.id in BranchesOf(t, fid) && fid in t.franchises
      && r.name == t.branches[r.id].name && r.productsNum == |ProductsOf(t, r.id)|
      && r.franchiseName == t.franchises[fid].name
  {
    forall r | r in IndexBranch(t, fid)
      ensures && r.id in BranchesOf(t, fid) && fid in t.franchises
              && r.name == t.branches[r.id].name && r.productsNum == |ProductsOf(t, r.id)|
              && r.franchiseName == t.franchises[fid].name
    {
      var b :| b in t.branches && t.branches[b].franchiseId == fid && fid in t.franchises &&
        r == BranchListDTO(b, t.branches[b].name, |ProductsOf(t, b)|, t.franchises[fid].name);
    }
  }

  /** A product count is zero exactly when no product references the branch. */
  lemma NoProductsIffZero(t: Tables, b: int)
    ensures |ProductsOf(t, b)| == 0 <==> forall p :: p in t.products ==> t.products[p].branchId != b
  {
    if |ProductsOf(t, b)| != 0 {
      var p := Aggregates.Pick(ProductsOf(t, b));
    } else {
      forall p | p in t.products ensures t.products[p].branchId != b {
        assert p !in ProductsOf(t, b);
      }
    }
  }

  /**
   * The index of an existing franchise has exactly one row per branch of it,
   * carrying the branch's name, the franchise's name and the number of products
   * referencing the branch (0 for a branch without products, whose row the LEFT
   * JOIN keeps); the index of a franchise that does not exist is empty.
   */
  lemma {:induction false} IndexBranchOneRowPerBranch(t: Tables, fid: int)
    ensures fid in t.franchises ==> (set r | r in IndexBranch(t, fid) :: r.id) == BranchesOf(t, fid)
    ensures fid in t.franchises ==> |IndexBranch(t, fid)| == |BranchesOf(t, fid)|
    ensures forall r :: r in IndexBranch(t, fid) ==>
      && r.id in BranchesOf(t, fid) && fid in t.franchises
      && r.name == t.branches[r.id].name && r.franchiseName == t.franchises[fid].name
      && r.productsNum == |ProductsOf(t, r.id)|
      && (r.productsNum == 0 <==> forall p :: p in t.products ==> t.products[p].branchId != r.id)
    ensures fid !in t.franchises ==> IndexBranch(t, fid) == {}
  {
    var rows := IndexBranch(t, fid);
    IndexBranchRows(t, fid);
    forall r | r in rows
      ensures r.productsNum == 0 <==> forall p :: p in t.products ==> t.products[p].branchId != r.id
    {
      NoProductsIffZero(t, r.id);
    }
    if fid in t.franchises {
      forall b | b in BranchesOf(t, fid) ensures exists r :: r in rows && r.id == b {
        assert BranchListDTO(b, t.branches[b].name, |ProductsOf(t, b)|, t.franchises[fid].name) in rows;
      }
      Aggregates.KeyInjectiveSize(rows, (r: BranchListDTO) => r.id, BranchesOf(t, fid));
      var ids := set r | r in rows :: r.id;
      forall b | b in BranchesOf(t, fid) ensures b in ids {
        var r :| r in rows && r.id == b;
      }
    }
  }
}
