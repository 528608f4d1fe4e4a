/** The record types of the three relations and the error values the layers
    pass to each other (models/user.go, models/tweet.go, models/follows.go). */
module Models {

  /** One byte of a Go string. */
  newtype byte = x: int | 0 <= x < 256

  /** A Go string. `len` counts its bytes. Every comparison of two strings
      in the model is byte for byte (`==`), which is exact for the columns
      the repository prefixes with `BINARY` and a simplification for the
      others, which the store compares under their collation. */
  type Bytes = seq<byte>

  /** A row of the users relation; `name` carries the store's unique constraint. */
  datatype User = User(id: nat, name: Bytes, password: Bytes)

  /** A row of the tweets relation; `userName` is the author's name. */
  datatype Tweet = Tweet(id: nat, userName: Bytes, content: Bytes)

  /** A row of the follows relation: `sourceUser` follows `targetUser`. */
  datatype Follows = Follows(id: nat, sourceUser: Bytes, targetUser: Bytes)

  /** The errors the repository can hand back. */
  datatype Error =
    | BadRequest     // the repository's own `errors.New("bad request")`
    | DuplicateName  // the store's unique constraint on users.name refused a row
    | StoreFailure   // the store itself failed a read or a delete

  /** A Go `error` result: nil or an error. */
  datatype Outcome = Pass | Fail(error: Error)

  /** A Go `(value, error)` result pair, with the value only meaningful on nil. */
  datatype Result<T> = Ok(value: T) | Err(error: Error)

  datatype Option<T> = None | Some(value: T)
}
