/**
 * The three persisted entities, the store they live in as a value (three tables
 * keyed by the surrogate id, children pointing at their parent by id), the
 * integrity and scoped-uniqueness invariants, and the cascading deletes that the
 * `cascade = ALL, orphanRemoval = true` mappings perform.
 */
module Entities {

  /** The `length = 100` of the name columns of franchises and branches. */
  const MaxNameLength: nat := 100

  datatype Franchise = Franchise(name: string)
  datatype Branch = Branch(name: string, franchiseId: int)
  datatype Product = Product(name: string, stock: int, branchId: int)

  datatype Tables = Tables(
    franchises: map<int, Franchise>,
    branches: map<int, Branch>,
    products: map<int, Product>)

  /** The database's LOWER on one character (ASCII letters only). */
  function Lower(c: char): char
  {
    if 'A' <= c <= 'Z' then (c as int + 32) as char else c
  }

  function LowerStr(s: string): string
  {
    seq(|s|, i requires 0 <= i < |s| => Lower(s[i]))
  }

  /** `Lower(a) = Lower(b)`: the comparison every name check of the services uses. */
  predicate SameName(a: string, b: string)
  {
    LowerStr(a) == LowerStr(b)
  }

  /** The ids of the branches of franchise `f` (the rows of `f.branches`). */
  function BranchesOf(t: Tables, f: int): set<int>
  {
    set b | b in t.branches && t.branches[b].franchiseId == f
  }

  /** The ids of the products of branch `b` (the rows of `b.products`). */
  function ProductsOf(t: Tables, b: int): set<int>
  {
    set p | p in t.products && t.products[p].branchId == b
  }

  /**
   * What the database itself keeps true: every foreign key points at an existing
   * row, and the name columns respect their declared length.
   */
  ghost predicate Integrity(t: Tables)
  {
    && (forall b :: b in t.branches ==> t.branches[b].franchiseId in t.franchises)
    && (forall p :: p in t.products ==> t.products[p].branchId in t.branches)
    && (forall f :: f in t.franchises ==> |t.franchises[f].name| <= MaxNameLength)
    && (forall b :: b in t.branches ==> |t.branches[b].name| <= MaxNameLength)
  }

  /**
   * What the services keep true: franchise names are unique, branch names are
   * unique within a franchise and product names within a branch, all compared
   * case-insensitively.
   */
  ghost predicate NamesUnique(t: Tables)
  {
    && (forall f, g :: f in t.franchises && g in t.franchises && f != g ==>
          !SameName(t.franchises[f].name, t.franchises[g].name))
    && (forall b, c ::
          b in t.branches && c in t.branches && b != c &&
          t.branches[b].franchiseId == t.branches[c].franchiseId ==>
            !SameName(t.branches[b].name, t.branches[c].name))
    && (forall p, q ::
          p in t.products && q in t.products && p != q &&
          t.products[p].branchId == t.products[q].branchId ==>
            !SameName(t.products[p].name, t.products[q].name))
  }

  /** Removes the branches in `gone` together with all of their products. */
  function RemoveBranches(t: Tables, gone: set<int>): Tables
  {
    Tables(
      t.franchises,
      map b | b in t.branches && b !in gone :: t.branches[b],
      map p | p in t.products && t.products[p].branchId !in gone :: t.products[p])
  }

  /** Deleting a product: no cascade. */
  function DeleteProductRow(t: Tables, p: int): (r: Tables)
    ensures p !in r.products && r.products.Keys <= t.products.Keys
    ensures r.franchises == t.franchises && r.branches == t.branches
  {
    t.(products := t.products - {p})
  }

  /** Deleting a branch cascades to its products. */
  function DeleteBranchCascade(t: Tables, b: int): (r: Tables)
    ensures b !in r.branches && r.branches.Keys <= t.branches.Keys && r.products.Keys <= t.products.Keys
    ensures r.franchises == t.franchises
  {
    RemoveBranches(t, {b})
  }

  /** Deleting a franchise cascades to its branches, and from them to their products. */
  function DeleteFranchiseCascade(t: Tables, f: int): (r: Tables)
    ensures f !in r.franchises && r.franchises.Keys <= t.franchises.Keys
    ensures r.branches.Keys <= t.branches.Keys && r.products.Keys <= t.products.Keys
  {
    RemoveBranches(t, BranchesOf(t, f)).(franchises := t.franchises - {f})
  }

  /**
   * After deleting franchise `f` neither `f`, nor any of its branches, nor any
   * product of those branches can be found; every other row is still there,
   * unchanged.
   */
  lemma DeleteFranchiseRemovesSubtree(t: Tables, f: int)
    ensures var r := DeleteFranchiseCascade(t, f);
      && f !in r.franchises
      && (forall b :: b in t.branches && t.branches[b].franchiseId == f ==> b !in r.branches)
      && (forall p :: p in t.products && t.products[p].branchId in BranchesOf(t, f) ==> p !in r.products)
      && (forall g :: g in t.franchises && g != f ==> g in r.franchises && r.franchises[g] == t.franchises[g])
      && (forall b :: b in t.branches && t.branches[b].franchiseId != f ==> b in r.branches && r.branches[b] == t.branches[b])
      && (forall p :: p in t.products && t.products[p].branchId !in BranchesOf(t, f) ==>
            p in r.products && r.products[p] == t.products[p])
      && r.franchises.Keys <= t.franchises.Keys && r.branches.Keys <= t.branches.Keys
      && r.products.Keys <= t.products.Keys
  {
  }

  /** After deleting branch `b` neither it nor its products remain; everything else is unchanged. */
  lemma DeleteBranchRemovesSubtree(t: Tables, b: int)
    ensures var r := DeleteBranchCascade(t, b);
      && b !in r.branches
      && (forall p :: p in t.products && t.products[p].branchId == b ==> p !in r.products)
      && r.franchises == t.franchises
      && (forall c :: c in t.branches && c != b ==> c in r.branches && r.branches[c] == t.branches[c])
      && (forall p :: p in t.products && t.products[p].branchId != b ==> p in r.products && r.products[p] == t.products[p])
      && r.branches.Keys <= t.branches.Keys && r.products.Keys <= t.products.Keys
  {
  }

  /** Removing any set of branches with their products keeps both invariants. */
  lemma RemoveBranchesKeepsInvariants(t: Tables, gone: set<int>)
    ensures Integrity(t) ==> Integrity(RemoveBranches(t, gone))
    ensures NamesUnique(t) ==> NamesUnique(RemoveBranches(t, gone))
  {
  }

  /**
   * The cascades keep referential integrity: no branch is left without its
   * franchise and no product without its branch. Scoped uniqueness is kept too.
   */
  lemma CascadesKeepInvariants(t: Tables, f: int, b: int, p: int)
    requires Integrity(t)
    ensures Integrity(DeleteFranchiseCascade(t, f))
    ensures Integrity(DeleteBranchCascade(t, b))
    ensures Integrity(DeleteProductRow(t, p))
    ensures NamesUnique(t) ==>
      NamesUnique(DeleteFranchiseCascade(t, f)) && NamesUnique(DeleteBranchCascade(t, b)) &&
      NamesUnique(DeleteProductRow(t, p))
  {
    RemoveBranchesKeepsInvariants(t, BranchesOf(t, f));
    RemoveBranchesKeepsInvariants(t, {b});
    var r := DeleteFranchiseCascade(t, f);
    forall c | c in r.branches ensures r.branches[c].franchiseId in r.franchises {
      assert c !in BranchesOf(t, f);
    }
  }
}
