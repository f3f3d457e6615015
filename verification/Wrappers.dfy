/** Results of operations that can fail: the Go code returns a value and an error. */
module Wrappers {

  datatype Option<+T> = None | Some(value: T)

  datatype Result<+T> = Ok(value: T) | Err(error: Error)

  /** The error messages of the storage, engine and token service that callers can tell apart. */
  datatype Error =
    | InvalidNamespace
    | InvalidKey
    | KeyNotFound
    | VersionNotFound
    | NamespaceNotFound
    | EncryptFailed
    | DecryptFailed
    | TokenNotFound | TokenExpired
    | TokensExist
    | LastRootToken
    | InvalidRole
}
