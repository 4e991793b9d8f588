/** An optional value: a query result that may hold no row, or a request
    field that may be absent from the JSON body. */
module Optional {
  datatype Option<+T> = None | Some(value: T)
}
