/** A room participant as the client sees it: a stable id plus the attributes
    that membership events update (display name, avatar, membership). */
module Members {

  /** The four relationships a participant can have with a room. */
  datatype Membership = Invite | Join | Leave | Ban

  /** A participant. `id` is the only field set at construction and no
      operation rebuilds a Member under another id; an empty `displayName`
      or `avatarUrl` means the attribute is absent. The datatype's
      destructors are nachat's const accessors of `Member`. */
  datatype Member = Member(id: string, displayName: string, avatarUrl: string, membership: Membership)

  /** True when the member has a display name (empty means absent). */
  predicate HasDisplayName(m: Member)
  {
    m.displayName != []
  }

  /** True when the member has an avatar (an empty locator means absent). */
  predicate HasAvatar(m: Member)
  {
    m.avatarUrl != []
  }

  /** A member as constructed from its id alone. */
  function NewMember(id: string): (m: Member)
    ensures m.id == id
    ensures m.membership == Leave
    ensures !HasDisplayName(m) && !HasAvatar(m)
  {
    Member(id, "", "", Leave)
  }

  /** Memberships under which the member list shows a member. */
  predicate Listed(s: Membership)
  {
    s == Invite || s == Join
  }
}
