/** A value that may be absent: TypeScript's `T | null`, an optional field
    `x?: T`, or the `undefined` that `Array.prototype.find` returns. */
module Optional {

  datatype Option<+T> = None | Some(value: T)

}
