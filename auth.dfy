/**
  The access gate in front of the admin page and the login form that hands
  out the token the gate looks for.
 */
module Auth {
  import opened Wrappers
  import opened Http

  /** The fixed admin password, compared in clear text. */
  const AdminPassword := "123"

  /** What a middleware does: pass the request on, or answer it itself. */
  datatype GateOutcome = Next | Stop(response: Response)

  /**
    `adminAuth`: the request goes on exactly when the `auth` query value is
    the string "true"; any other value, or none, is sent to the login page.
   */
  function AdminAuth(auth: Option<string>): (g: GateOutcome)
    ensures g == Next <==> auth == Some("true")
    ensures g != Next ==> g == Stop(Redirect(LoginPath))
  {
    if auth == Some("true") then Next else Stop(Redirect(LoginPath))
  }

  /**
    POST /login: the submitted `senha` opens the admin page, token included,
    exactly when it equals the password; otherwise the login view is shown
    again with its error flag set.
   */
  function Login(senha: Option<string>): (r: Response)
    ensures r == Redirect(AdminWithToken) <==> senha == Some(AdminPassword)
    ensures senha != Some(AdminPassword) ==> r == Render("login", true)
  {
    if senha == Some(AdminPassword) then Redirect(AdminWithToken) else Render("login", true)
  }
}
