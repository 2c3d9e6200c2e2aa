/** An optional value, shared by the list helpers and the user controller. */
module Options {

  /** `Some(v)` holds a value that is present. `None` is an absent request
      field, or the `{}` accumulator of the favourite-blog fold. */
  datatype Option<T> = None | Some(value: T)
}
