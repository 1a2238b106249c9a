/** Optional values, shared by every module of the model. */
module Options {

  /** A value that may be absent: JavaScript's `undefined`/`null` on one side, a value on the other. */
  datatype Option<+T> = None | Some(value: T)
}
