/** Small value wrappers shared by the whole model. */
module Common {

  /** An optional value; `None` stands for JavaScript's `undefined`. */
  datatype Option<+T> = None | Some(value: T)

  /** The outcome of a host call or of a step that awaits one: a value, or the
      rejection's `error.message`. */
  datatype Result<+T> = Ok(value: T) | Err(message: string)

  /** JavaScript truthiness of a value that is either `undefined` or a string. */
  predicate Truthy(o: Option<string>) {
    o.Some? && o.value != ""
  }
}
