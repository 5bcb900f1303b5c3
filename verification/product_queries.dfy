/**
 * The JPQL queries of the product repository as functions of the store's
 * tables: the scoped name lookups used by the duplicate checks, and a branch's
 * product index.
 */
module ProductQueries {
  import opened Dto
  import opened Entities
  import Aggregates

  /** `findByName`: products of branch `bid` whose lower-cased name is the lower-cased argument. */
  function FindByName(t: Tables, bid: int, name: string): (r: set<int>)
    ensures r <= ProductsOf(t, bid)
  {
    set p | p in t.products && t.products[p].branchId == bid && SameName(t.products[p].name, name)
  }

  /** `findByNameId`: as `findByName`, but never the product `id`. */
  function FindByNameId(t: Tables, bid: int, name: string, id: int): (r: set<int>)
    ensures r <= ProductsOf(t, bid) && id !in r
  {
    set p | p in t.products && t.products[p].branchId == bid && SameName(t.products[p].name, name) && p != id
  }

  /**
   * `findByName` reports a product exactly when branch `bid` has a product whose
   * name equals the argument up to case; with unique names it matches at most one.
   */
  lemma FindByNameMatches(t: Tables, bid: int, name: string)
    ensures FindByName(t, bid, name) != {} <==>
      exists p :: p in t.products && t.products[p].branchId == bid && LowerStr(t.products[p].name) == LowerStr(name)
    ensures NamesUnique(t) ==> forall p, q :: p in FindByName(t, bid, name) && q in FindByName(t, bid, name) ==> p == q
  {
    if exists p :: p in t.products && t.products[p].branchId == bid && LowerStr(t.products[p].name) == LowerStr(name) {
      var p :| p in t.products && t.products[p].branchId == bid && LowerStr(t.products[p].name) == LowerStr(name);
      assert p in FindByName(t, bid, name);
    }
    if FindByName(t, bid, name) != {} {
      var p := Aggregates.Pick(FindByName(t, bid, name));
    }
  }

  /**
   * `findByNameId` is `findByName` without the excluded id: a product that keeps
   * its own name within its own branch never clashes with itself.
   */
  lemma FindByNameIdExcludesSelf(t: Tables, bid: int, name: string, id: int)
    ensures FindByNameId(t, bid, name, id) == FindByName(t, bid, name) - {id}
    ensures id !in FindByNameId(t, bid, name, id)
    ensures NamesUnique(t) && id in t.products && t.products[id].branchId == bid &&
            SameName(t.products[id].name, name) ==>
      FindByNameId(t, bid, name, id) == {}
  {
  }

  /**
   * Writing product `id` with name `n` into branch `g` changes what `findByName`
   * finds only at `id`: it is found afterwards exactly when it now belongs to the
   * searched branch and `n` matches the searched name.
   */
  lemma FindByNameAfterWrite(t: Tables, id: int, n: string, stock: int, g: int, bid: int, name: string)
    ensures FindByName(t.(products := t.products[id := Product(n, stock, g)]), bid, name) ==
      (FindByName(t, bid, name) - {id}) + (if g == bid && SameName(n, name) then {id} else {})
  {
  }

  /**
   * `IndexProduct`: per product of branch `bid` its id, name, stock and the name
   * of the branch (an inner join through `p.branch.name`).
   */
  function IndexProduct(t: Tables, bid: int): (r: set<ProductListDTO>)
    ensures bid !in t.branches ==> r == {}
    ensures forall row :: row in r ==> row.id in ProductsOf(t, bid)
  {
    set p | p in t.products && t.products[p].branchId == bid && bid in t.branches ::
      ProductListDTO(p, t.products[p].name, t.products[p].stock, t.branches[bid].name)
  }

  /**
   * The index of an existing branch has exactly one row per product of it,
   * carrying the product's name and stock and the branch's name; the index of a
   * branch that does not exist is empty.
   */
  lemma {:induction false} IndexProductOneRowPerProduct(t: Tables, bid: int)
    ensures bid in t.branches ==> (set r | r in IndexProduct(t, bid) :: r.id) == ProductsOf(t, bid)
    ensures bid in t.branches ==> |IndexProduct(t, bid)| == |ProductsOf(t, bid)|
    ensures forall r :: r in IndexProduct(t, bid) ==>
      && r.id in ProductsOf(t, bid) && bid in t.branches
      && r.name == t.products[r.id].name && r.stock == t.products[r.id].stock
      && r.branchName == t.branches[bid].name
    ensures bid !in t.branches ==> IndexProduct(t, bid) == {}
  {
    var rows := IndexProduct(t, bid);
    forall r | r in rows
      ensures && r.id in ProductsOf(t, bid) && bid in t.branches
              && r.name == t.products[r.id].name && r.stock == t.products[r.id].stock
              && r.branchName == t.branches[bid].name
    {
      var p :| p in t.products && t.products[p].branchId == bid && bid in t.branches &&
        r == ProductListDTO(p, t.products[p].name, t.products[p].stock, t.branches[bid].name);
    }
    if bid in t.branches {
      forall p | p in ProductsOf(t, bid) ensures exists r :: r in rows && r.id == p {
        assert ProductListDTO(p, t.products[p].name, t.products[p].stock, t.branches[bid].name) in rows;
      }
      Aggregates.KeyInjectiveSize(rows, (r: ProductListDTO) => r.id, ProductsOf(t, bid));
      var ids := set r | r in rows :: r.id;
      forall p | p in ProductsOf(t, bid) ensures p in ids {
        var r :| r in rows && r.id == p;
      }
    }
  }
}
