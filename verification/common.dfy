/** Shared value types: optional values, results with an error message, bytes. */
module Common {

  /** A value that may be absent: JavaScript's `null` / `undefined`. */
  datatype Option<+T> = None | Some(value: T) {

    /** The wrapped value, or `default` when absent (JavaScript's `?? default`). */
    function GetOr(default: T): T {
      match this
      case Some(v) => v
      case None => default
    }
  }

  /** The outcome of an operation that either returns a value or throws an `Error(message)`. */
  datatype Result<+T> = Success(value: T) | Failure(message: string)

  /** An octet of a Node.js `Buffer`. */
  newtype byte = x: int | 0 <= x < 256

  /** The two name fields of a candidate, `nom` and `prenom`, each possibly `null`. */
  datatype NomPrenom = NomPrenom(nom: Option<string>, prenom: Option<string>)

  function Min(a: int, b: int): int {
    if a <= b then a else b
  }
}
