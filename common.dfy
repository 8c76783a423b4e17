/** Small failure-carrying datatypes shared by the other modules. */
module Common {

  datatype Option<+T> = None | Some(value: T)

  /** The outcome of a Django `clean_*` method or validator: the cleaned
      value, or the ValidationError it raises. */
  datatype Result<+T, +E> = Ok(value: T) | Err(error: E)
}
