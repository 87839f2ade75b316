/** An optional value: a `parseInt` that gave `NaN`, a `prompt` that was cancelled, a `find` that matched nothing. */
module Options {
  datatype Option<+T> = None | Some(value: T)
}
