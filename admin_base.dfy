/** What every admin screen shares: the session-role guard and the two TempData messages. */
module AdminBaseController {
  import opened Nullable
  import opened Web

  const RoleKey := "UserRole"
  const AdminRole := "Admin"

  /** Where a visitor who is not an admin is sent. */
  const LoginRedirect := Redirect("Login", "AdminHome")

  /** The session's `UserRole` string is exactly "Admin" (a missing key reads as null). */
  predicate IsAdmin(values: map<string, string>)
  {
    RoleKey in values && values[RoleKey] == AdminRole
  }

  /** `CheckAdminAccess()`: no result (null) for an admin, the login redirect for anyone else. */
  function CheckAdminAccess(values: map<string, string>): (r: Option<Redirect>)
    ensures r.None? <==> RoleKey in values && values[RoleKey] == AdminRole
    ensures r.Some? ==> r.value == LoginRedirect
  {
    if IsAdmin(values) then None else Some(LoginRedirect)
  }

  /** Writes TempData["ErrorMessage"] and nothing else. */
  method SetErrorMessage(session: Session, message: string)
    modifies session
    ensures session.tempData == old(session.tempData)[ErrorKey := Text(message)]
    ensures session.cart == old(session.cart) && session.values == old(session.values)
  {
    session.tempData := session.tempData[ErrorKey := Text(message)];
  }

  /** Writes TempData["SuccessMessage"] and nothing else. */
  method SetSuccessMessage(session: Session, message: string)
    modifies session
    ensures session.tempData == old(session.tempData)[SuccessKey := Text(message)]
    ensures session.cart == old(session.cart) && session.values == old(session.values)
  {
    session.tempData := session.tempData[SuccessKey := Text(message)];
  }
}
