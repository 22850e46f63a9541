/** What the loader checks about the rows it has read from the matrix file. */
module Loader {
  import opened Weights

  datatype Result<T> = Ok(value: T) | Failure(error: string)

  /** The message the loader throws for a matrix that is not N x N. */
  const NotSquare: string := "Invalid input, file is not NxN matrix"

  /** Accepts the rows exactly when every row has as many values as there are rows. */
  method CheckSquare(rows: Matrix) returns (r: Result<Matrix>)
    ensures r.Ok? <==> IsSquare(rows)
    ensures r.Ok? ==> r.value == rows
    ensures r.Failure? ==> r.error == NotSquare
  {
    for k := 0 to |rows|
      invariant forall i :: 0 <= i < k ==> |rows[i]| == |rows|
    {
      if |rows[k]| != |rows| {
        return Failure(NotSquare);
      }
    }
    return Ok(rows);
  }
}
