/** An optional value: stands for a JavaScript value that may be `undefined`. */
module Options {

  datatype Option<+T> = None | Some(value: T)

  /** JavaScript truthiness of a string that may be `undefined`:
      both `undefined` and the empty string are falsy. */
  predicate Truthy(s: Option<string>) {
    s.Some? && s.value != []
  }
}
