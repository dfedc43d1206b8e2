/** A value that may be absent: JavaScript's `null` / `undefined` next to a
    present value, where the code only asks whether the value is truthy. */
module Optional {
  datatype Option<+T> = None | Some(value: T)
}
