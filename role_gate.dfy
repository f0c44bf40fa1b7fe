/** The sidebar's role gate: the viewer picks a role from a drop-down list;
    the moderator role is granted only with the fixed shared password, and
    the player role is always granted, read-only, with no password asked. */
module RoleGate {

  /** The two entries of the role drop-down list, player first. */
  const PlayerRole := "Игрок"
  const HostRole := "Ведущий"

  /** The moderator password, compared as plain text. */
  const HostPassword := "admin123"

  /** What the rest of the page may do for this viewer. */
  datatype Access =
    | ReadOnly    // player view: the table is shown, nothing can be changed
    | HostAccess  // moderator view: every editing control is shown
    | Halted      // wrong moderator password: a warning, and the page stops there

  /** Resolving the chosen role and the typed password (the password field
      is empty until something is typed, and only asked for the moderator). */
  function ResolveRole(role: string, password: string): (a: Access)
    ensures a == HostAccess <==> role == HostRole && password == HostPassword
    ensures a == Halted <==> role == HostRole && password != HostPassword
    ensures a == ReadOnly <==> role != HostRole
  {
    if role == HostRole then
      if password != HostPassword then Halted else HostAccess
    else
      ReadOnly
  }

  /** Choosing the player entry grants read-only access whatever was typed,
      and choosing the moderator entry never does. */
  lemma PlayerNeedsNoPassword(password: string)
    ensures ResolveRole(PlayerRole, password) == ReadOnly
    ensures ResolveRole(HostRole, password) != ReadOnly
  {
  }

  /** An empty or wrong password stops the moderator page. */
  lemma WrongPasswordHalts(password: string)
    requires password != HostPassword
    ensures ResolveRole(HostRole, password) == Halted
  {
  }
}
