/** An optional value, standing for the app's `undefined`/`null` results. */
module Options {

  datatype Option<+T> = None | Some(value: T)
}
