/** The "value or nothing" wrapper used for JavaScript's `undefined`/`null` results. */
module Optional {

  datatype Option<+T> = None | Some(value: T)
}
