/** Value wrappers shared by every part of the model: the NA-capable cell and
    the outcome of an operation that the host can abort with an error. */
module Values {

  /** A value that may be missing; `None` plays the role of R's NA. */
  datatype Option<+T> = None | Some(value: T)

  /** The errors the modelled code raises: an Rcpp vector accessed with
      `operator()` past its extent throws `index_out_of_bounds`, and R's
      `data.frame` stops when a column's length does not divide the number
      of rows. */
  datatype Error = IndexOutOfBounds | DifferingRows

  /** How Rcpp streams a string cell: NA_STRING prints as its character
      data, the two letters "NA". */
  function Shown(c: Option<string>): string {
    match c
    case None => "NA"
    case Some(s) => s
  }

  /** The VCF rendering of a cell: NA is written as ".". */
  function Dotted(c: Option<string>): string {
    match c
    case None => "."
    case Some(s) => s
  }

  datatype Result<+T> = Success(value: T) | Failure(error: Error)
}
