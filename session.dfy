/**
 * The requester's claims principal, as far as the moderation service looks
 * at it: an optional identity that is or is not authenticated and that may
 * carry a name.
 */
module Session {

  import opened Wrappers

  datatype Identity = Identity(isAuthenticated: bool, name: Option<string>)

  datatype Principal = Principal(identity: Option<Identity>)

  /** The condition of the self-logout guard: the identity is present, it is
      authenticated, and the given user name equals its name. A missing name
      never equals a user name. */
  predicate IsSelf(p: Principal, username: string)
  {
    && p.identity.Some?
    && p.identity.value.isAuthenticated
    && p.identity.value.name == Some(username)
  }

}
