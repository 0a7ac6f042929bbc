/** Outcome types shared by the table-reconstruction modules. */
module Errors {

  /** The exceptions the reconstruction core can raise. */
  datatype TableError =
    | EmptyStructure  // `sorted_distances[0]` on an empty list: text boxes but no predicted cells
    | IndexError      // an empty match list or a text index past the end of the recognition results

  datatype Result<T> = Ok(value: T) | Err(error: TableError)
}
