/** Shared vocabulary: an optional value, string prefixes and the events the
    server sends over its transport (kept as an abstract log). */
module Base {

  datatype Option<T> = None | Some(value: T)

  /** JavaScript `s.startsWith(p)`. */
  predicate StartsWith(s: string, p: string)
  {
    |p| <= |s| && s[..|p|] == p
  }

  /** What a handler hands to the transport. The `state-update` payload is the
      whole session state at the moment of emission, so it carries no fields here. */
  datatype Event =
    | StateUpdateToAll
    | StateUpdateTo(socketId: string)
    | ErrorMessageTo(socketId: string, message: string)
    | ForceDisconnectTo(socketId: string, message: string)
}
