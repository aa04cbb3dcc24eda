/**
  The route handlers that read and change the in-memory project table. The
  table is the `projects` field of a `Portfolio`; each handler that changes it
  is proved to leave exactly the table its specification function in
  `Projects` describes, and to keep the id invariant.
 */
module App {
  import opened Wrappers
  import opened JsParseInt
  import opened Projects
  import opened Http
  import opened Auth

  class Portfolio {
    /** The module-level array `projetos`, in store order. */
    var projects: seq<Project>

    /** Ids are strictly positive and pairwise distinct. */
    ghost predicate Valid()
      reads this
    {
      IdsValid(projects)
    }

    /** The table as the process starts it. */
    constructor ()
      ensures Valid() && projects == Seed()
    {
      projects := Seed();
      SeedIsValid();
    }

    /** `projetos.findIndex(p => p.id === id)`: a linear scan from the front. */
    method FindIndex(id: int) returns (index: int)
      ensures index == FirstIndex(projects, id)
    {
      index := 0;
      while index < |projects|
        invariant 0 <= index <= |projects|
        invariant forall j :: 0 <= j < index ==> projects[j].id != id
      {
        if projects[index].id == id {
          FirstIndexAt(projects, id, index);
          return;
        }
        index := index + 1;
      }
      index := -1;
    }

    /** GET /admin behind `adminAuth`: the admin view of the table, or the login redirect. */
    method GetAdmin(auth: Option<string>) returns (resp: Response)
      ensures auth == Some("true") ==> resp == RenderProjects("admin-crud", projects)
      ensures auth != Some("true") ==> resp == Redirect(LoginPath)
    {
      match AdminAuth(auth)
      case Next =>
        resp := RenderProjects("admin-crud", projects);
      case Stop(r) =>
        resp := r;
    }

    /** POST /admin/projetos: append a record with the next id, then back to the admin page. */
    method PostCreate(body: Submission) returns (resp: Response)
      requires Valid()
      modifies this
      ensures Valid()
      ensures projects == Created(old(projects), body)
      ensures resp == Redirect(AdminPath)
    {
      CreateSpec(projects, body);
      var newId := NextId(projects);
      var record := NewProject(newId, body);
      projects := projects + [record];
      resp := Redirect(AdminPath);
    }

    /**
      POST /admin/projetos/update/:id: a path id that parseInt reads as NaN is
      a 400 and leaves the table alone; otherwise the record with that id, if
      any, is patched in its slot, and the answer is a redirect either way.
     */
    method PostUpdate(rawId: string, body: Submission) returns (resp: Response)
      requires Valid()
      modifies this
      ensures Valid()
      ensures ParseInt(rawId).None? ==> resp == BadRequest(InvalidIdMessage) && projects == old(projects)
      ensures ParseInt(rawId).Some? ==>
        resp == Redirect(AdminPath) && projects == Updated(old(projects), ParseInt(rawId).value, body)
    {
      var id := ParseInt(rawId);
      if id.None? {
        resp := BadRequest(InvalidIdMessage);
        return;
      }
      ghost var before := projects;
      UpdatePreservesValid(before, id.value, body);
      var index := FindIndex(id.value);
      if index != -1 {
        var existing := projects[index];
        projects := projects[index := Patched(existing, body)];
      }
      assert projects == Updated(before, id.value, body);
      resp := Redirect(AdminPath);
    }

    /**
      POST /admin/projetos/delete/:id: a path id that parseInt reads as NaN is
      a 400 and leaves the table alone; otherwise the record with that id, if
      any, is spliced out, and the answer is a redirect either way.
     */
    method PostDelete(rawId: string) returns (resp: Response)
      requires Valid()
      modifies this
      ensures Valid()
      ensures ParseInt(rawId).None? ==> resp == BadRequest(InvalidIdMessage) && projects == old(projects)
      ensures ParseInt(rawId).Some? ==>
        resp == Redirect(AdminPath) && projects == Deleted(old(projects), ParseInt(rawId).value)
    {
      var id := ParseInt(rawId);
      if id.None? {
        resp := BadRequest(InvalidIdMessage);
        return;
      }
      ghost var before := projects;
      DeletePreservesValid(before, id.value);
      var index := FindIndex(id.value);
      if index != -1 {
        projects := SpliceOut(projects, index);
      }
      assert projects == Deleted(before, id.value);
      resp := Redirect(AdminPath);
    }
  }

  /** The tables and the parse the admin session below goes through. */
  lemma SessionSteps(z: Submission)
    ensures Created(Seed(), z) == [Seed()[0], Seed()[1], NewProject(3, z)]
    ensures ParseInt("1") == Some(1)
    ensures Deleted([Seed()[0], Seed()[1], NewProject(3, z)], 1) == [Seed()[1], NewProject(3, z)]
  {
    ParseIntOfNumeral(1, []);
    assert DecimalText(1) + [] == "1";
    var t := [Seed()[0], Seed()[1], NewProject(3, z)];
    assert FirstIndex(t, 1) == 0;
    assert SpliceOut(t, 0) == t[1..];
  }

  /**
    An admin session from the seed state, reasoned about through the
    handlers' contracts alone: create "Z" (it gets id 3, at the end), delete
    id 1, and the admin view with the token shows ids 2 and 3 in that order.
   */
  method SeedSession() returns (view: seq<Project>)
    ensures |view| == 2 && view[0].id == 2 && view[1].id == 3
  {
    var z := Submission(Some("Z"), None, None, None);
    SessionSteps(z);
    var app := new Portfolio();
    var r := app.PostCreate(z);
    r := app.PostDelete("1");
    r := app.GetAdmin(Some("true"));
    view := r.projects;
  }
}
