/** The optional value used wherever the Kotlin code has a nullable result
    (`firstOrNull()`, `match?.value`, `rawValue`). */
module Wrappers {

  datatype Option<+T> = None | Some(value: T)
}
