/** What a route handler hands back to the transport. */
module Http {
  import Projects

  datatype Response =
    /** `res.redirect(location)`: status 302 with a Location header. */
    | Redirect(location: string)
    /** `res.status(400).send(message)`: a plain-text client error. */
    | BadRequest(message: string)
    /** `res.render(view, { error })`: status 200, a view with its error flag. */
    | Render(view: string, error: bool)
    /** `res.render(view, { listaProjetos })`: status 200, a view of the project table. */
    | RenderProjects(view: string, projects: seq<Projects.Project>)

  const AdminPath := "/admin"
  const LoginPath := "/login"
  const AdminWithToken := "/admin?auth=true"
  const InvalidIdMessage := "ID do projeto inválido."
}
