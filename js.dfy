/** Values as they cross the IPC boundary between the renderer and the database handlers. */
module Js {

  /** A value that may be absent: `None` stands for JavaScript's `null` or `undefined`
      (and, for numbers bound into SQLite, for `NaN`, which SQLite stores as NULL). */
  datatype Option<T> = None | Some(value: T)

  /** The JavaScript values an IPC argument can carry, as far as the handlers look at them. */
  datatype Value = Undefined | Null | Boolean(b: bool) | Number(n: real) | Text(s: string)

  /** JavaScript truthiness: `undefined`, `null`, `false`, `0` and `""` are falsy. */
  predicate Truthy(v: Value)
  {
    match v
    case Undefined => false
    case Null => false
    case Boolean(b) => b
    case Number(n) => n != 0.0
    case Text(s) => s != ""
  }

  /** Truthiness of a variable holding `null` or a numeric id: only a number other than 0 is
      truthy. */
  predicate TruthyId(id: Option<int>)
  {
    id.Some? && id.value != 0
  }
}
