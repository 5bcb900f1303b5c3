/**
 * The data-transfer shapes of the service layer: the uniform result envelope
 * (ApiResponseDTO) and the row/record shapes the services and the repository
 * queries hand back. The envelope's timestamp is not modelled.
 */
module Dto {
  import Aggregates

  datatype Option<+T> = None | Some(value: T)

  /** The message of a response, as a tag instead of the source's free text. */
  datatype Message =
    | Done            // every successful operation
    | NotFound        // the record addressed by id does not exist
    | ParentNotFound  // the franchise / branch a record should belong to does not exist
    | DuplicateName   // another record in the same scope has a case-insensitively equal name
    | StorageFailure  // the store threw (a column constraint or any other persistence error)

  /** The envelope: `success`, `message` and `data`, where an absent `data` is Java's null. */
  datatype ApiResponse<+T> = ApiResponse(success: bool, message: Message, data: Option<T>)

  /** Static factory `Success(message, data)`. */
  function Success<T>(m: Message, d: T): ApiResponse<T>
  {
    ApiResponse(true, m, Some(d))
  }

  /** Static factory `Error(message)`: no data. */
  function Error<T>(m: Message): ApiResponse<T>
  {
    ApiResponse(false, m, None)
  }

  /** A response that one of the two factories could have built. */
  ghost predicate FromFactory<T>(r: ApiResponse<T>)
  {
    r == Error(r.message) || (r.data.Some? && r == Success(r.message, r.data.value))
  }

  /** What each factory puts in the three fields. */
  lemma FactoryFields<T>(m: Message, d: T)
    ensures Success(m, d).success && Success(m, d).message == m && Success(m, d).data == Some(d)
    ensures !Error<T>(m).success && Error<T>(m).message == m && Error<T>(m).data == None
    ensures FromFactory(Success(m, d)) && FromFactory(Error<T>(m))
  {
  }

  /**
   * For a response built by the factories, `success` tells which factory built it,
   * and the response is recovered from its message and data.
   */
  lemma SuccessIffFromSuccess<T>(r: ApiResponse<T>)
    requires FromFactory(r)
    ensures r.success <==> r.data.Some?
    ensures r == if r.success then Success(r.message, r.data.value) else Error(r.message)
  {
  }

  /**
   * The message for a name lookup declared to return an Optional that found
   * `matches`: one match is a duplicate; several make Spring Data throw, which
   * the catch-all turns into a storage failure.
   */
  function ClashMessage(matches: set<int>): Message
  {
    if |matches| == 1 then DuplicateName else StorageFailure
  }

  /** A lookup that can match at most one row reports any match as a duplicate. */
  lemma SingleClashIsDuplicate(matches: set<int>)
    requires forall a, b :: a in matches && b in matches ==> a == b
    ensures matches != {} ==> ClashMessage(matches) == DuplicateName
  {
    if matches != {} {
      var a := Aggregates.Pick(matches);
      forall b | b in matches ensures b == a { }
      assert matches == {a};
    }
  }

  /** FranchiseDTO as produced by ResponseFranchise. */
  datatype FranchiseDTO = FranchiseDTO(id: int, name: string)

  /** BranchDTO as produced by BranchResponse. */
  datatype BranchDTO = BranchDTO(id: int, name: string, franchiseId: int)

  /** ProductDTO as produced by ProductResponse. */
  datatype ProductDTO = ProductDTO(id: int, name: string, stock: int, branchId: int)

  /** A row of the franchise index: id, name and the number of its branches. */
  datatype FranchiseListDTO = FranchiseListDTO(id: int, name: string, branchesNum: nat)

  /** A row of a franchise's branch index. */
  datatype BranchListDTO = BranchListDTO(id: int, name: string, productsNum: nat, franchiseName: string)

  /** A row of a branch's product index. */
  datatype ProductListDTO = ProductListDTO(id: int, name: string, stock: int, branchName: string)

  /** A row of the top-stock report: the branch and its highest-stock product. */
  datatype BranchMaxProductsListDTO = BranchMaxProductsListDTO(id: int, nameBranch: string, nameProduct: string, stock: int)
}
