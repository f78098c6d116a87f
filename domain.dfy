/**
 * Shared vocabulary of the chat server model: identities, connection
 * handles, timestamps and an Option type for lookups that may miss.
 */
module Domain {

  /** An account id. Accounts have integer serial ids; the handlers use them
      as keys of plain JavaScript objects, where 5 and "5" are the same key. */
  type UserId = nat

  /** A socket.io connection id. Such ids are never empty, so the server's
      truthiness test on a looked-up id is the same as "the key is present". */
  type SocketId = s: string | s != "" witness "0"

  /** A value of the persistence clock (the `sent_at` column). */
  type Timestamp = int

  /** The `email` column of the accounts table. */
  type Email = string

  datatype Option<T> = None | Some(value: T)
}
