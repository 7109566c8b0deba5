/** `Result<T>`: an immutable success-or-failure value. Its constructor is private, so
    every value is made by `Success` or `Failure`. */
module Results {
  import opened Outcomes

  /** The three get-only properties. `Data` and `ErrorMessage` are references and may be
      null, which is `None`. */
  datatype Result<T> = Result(IsSuccess: bool, Data: Option<T>, ErrorMessage: Option<string>)

  /** The shape every factory-made value has: a success carries no error message and a
      failure carries no data. */
  predicate Consistent<T>(r: Result<T>) {
    (r.IsSuccess ==> r.ErrorMessage == None) && (!r.IsSuccess ==> r.Data == None)
  }

  /** `Result<T>.Success(data)`. */
  function Success<T>(data: Option<T>): (r: Result<T>)
    ensures Consistent(r)
    ensures r.IsSuccess && r.Data == data
  {
    Result(true, data, None)
  }

  /** `Result<T>.Failure(errorMessage)`. */
  function Failure<T>(errorMessage: Option<string>): (r: Result<T>)
    ensures Consistent(r)
    ensures !r.IsSuccess && r.ErrorMessage == errorMessage
  {
    Result(false, None, errorMessage)
  }

  /** The consistent values are exactly the ones the two factories make. */
  lemma FactoriesMakeExactlyConsistent<T>(r: Result<T>)
    ensures Consistent(r) <==> r == Success(r.Data) || r == Failure(r.ErrorMessage)
  {
  }

  /** A success is never a failure, and each factory keeps its argument apart. */
  lemma FactoriesDistinct<T>(d1: Option<T>, d2: Option<T>, m1: Option<string>, m2: Option<string>)
    ensures Success(d1) != Failure<T>(m1)
    ensures Success(d1) == Success(d2) <==> d1 == d2
    ensures Failure<T>(m1) == Failure<T>(m2) <==> m1 == m2
  {
  }
}
