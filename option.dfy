/** The Java `null` returned by `peekMin` and `removeMin` on an empty queue. */
module Optional {
  datatype Option<T> = None | Some(value: T)
}
