/** A value that may be missing: JavaScript's `undefined`/`null` where the source
    produces one. */
module Optional {
  datatype Option<T> = None | Some(value: T)
}
