/** An optional value: a JSON field or command-line argument that may be absent. */
module Optional {
  datatype Option<T> = None | Some(value: T)
}
