/**
  The project table: the record type, the seed rows, and the value-level
  specification of what create, update and delete do to the table.
 */
module Projects {
  import opened Wrappers

  /**
    A value read from the request body: a string, or `undefined` (None) when
    the form did not send the field.
   */
  type Field = Option<string>

  /** JavaScript truthiness of a body value: `undefined` and `""` are falsy. */
  predicate Truthy(f: Field) {
    f.Some? && f.value != ""
  }

  /** JavaScript `submitted || existing`. */
  function Or(submitted: Field, existing: Field): Field {
    if Truthy(submitted) then submitted else existing
  }

  /** One portfolio entry (`titulo`, `tecnologias`, `descricao`, `link` in the source). */
  datatype Project = Project(id: int, title: Field, technologies: Field, description: Field, link: Field)

  /** The four fields destructured from a create or update request body. */
  datatype Submission = Submission(title: Field, technologies: Field, description: Field, link: Field)

  /** The two rows the table holds when the process starts. */
  function Seed(): seq<Project> {
    [ Project(1, Some("Projeto X - E-Commerce"), Some("HTML, CSS, Node.js"), Some("Descrição do projeto X."), Some("#")),
      Project(2, Some("Projeto Y - API REST"), Some("TypeScript, Express"), Some("Descrição do projeto Y."), Some("#")) ]
  }

  /** Ids are strictly positive ... */
  predicate IdsPositive(s: seq<Project>) {
    forall i :: 0 <= i < |s| ==> s[i].id > 0
  }

  /** ... and pairwise distinct. */
  predicate IdsDistinct(s: seq<Project>) {
    forall i, j :: 0 <= i < |s| && 0 <= j < |s| && i != j ==> s[i].id != s[j].id
  }

  predicate IdsValid(s: seq<Project>) {
    IdsPositive(s) && IdsDistinct(s)
  }

  predicate HasId(s: seq<Project>, id: int) {
    exists i :: 0 <= i < |s| && s[i].id == id
  }

  /** `Math.max(...projetos.map(p => p.id))` on a non-empty table. */
  function MaxId(s: seq<Project>): (m: int)
    requires |s| > 0
    ensures forall i :: 0 <= i < |s| ==> s[i].id <= m
    ensures exists i :: 0 <= i < |s| && s[i].id == m
  {
    if |s| == 1 then s[0].id
    else
      var rest := MaxId(s[1..]);
      if s[0].id >= rest then s[0].id else rest
  }

  /** The id create assigns: one more than the largest id, or 1 for an empty table. */
  function NextId(s: seq<Project>): (r: int)
    ensures forall i :: 0 <= i < |s| ==> s[i].id < r
    ensures |s| == 0 ==> r == 1
    ensures |s| > 0 ==> HasId(s, r - 1)
  {
    if |s| > 0 then MaxId(s) + 1 else 1
  }

  /** The record create appends: the submitted values, undefined ones included. */
  function NewProject(id: int, b: Submission): Project {
    Project(id, b.title, b.technologies, b.description, b.link)
  }

  /** The table after create. */
  function Created(s: seq<Project>, b: Submission): seq<Project> {
    s + [NewProject(NextId(s), b)]
  }

  /** The record update stores: same id, each field replaced only by a truthy submitted value. */
  function Patched(p: Project, b: Submission): Project {
    Project(p.id, Or(b.title, p.title), Or(b.technologies, p.technologies),
            Or(b.description, p.description), Or(b.link, p.link))
  }

  /** `findIndex(p => p.id === id)`: the first index holding `id`, or -1. */
  function FirstIndex(s: seq<Project>, id: int): (r: int)
    ensures -1 <= r < |s|
    ensures r == -1 <==> !HasId(s, id)
    ensures 0 <= r ==> s[r].id == id && forall j :: 0 <= j < r ==> s[j].id != id
  {
    if |s| == 0 then -1
    else if s[0].id == id then 0
    else
      var k := FirstIndex(s[1..], id);
      if k == -1 then -1 else k + 1
  }

  /** The table after an update of `id`: the first record with that id patched in its slot. */
  function Updated(s: seq<Project>, id: int, b: Submission): seq<Project> {
    var i := FirstIndex(s, id);
    if i == -1 then s else s[i := Patched(s[i], b)]
  }

  /** `splice(i, 1)`: the table without slot `i`. */
  function SpliceOut(s: seq<Project>, i: nat): seq<Project>
    requires i < |s|
  {
    s[..i] + s[i + 1..]
  }

  /** The table after a delete of `id`: the first record with that id spliced out. */
  function Deleted(s: seq<Project>, id: int): seq<Project> {
    var i := FirstIndex(s, id);
    if i == -1 then s else SpliceOut(s, i)
  }

  /** The seed table satisfies the id invariant. */
  lemma SeedIsValid()
    ensures IdsValid(Seed())
  {
  }

  /** The first index is the one before which no record carries the id. */
  lemma FirstIndexAt(s: seq<Project>, id: int, k: int)
    requires 0 <= k < |s| && s[k].id == id
    requires forall j :: 0 <= j < k ==> s[j].id != id
    ensures FirstIndex(s, id) == k
  {
  }

  /** The one index at which a record with a given id sits, when the ids are distinct. */
  lemma FirstIndexOfDistinct(s: seq<Project>, k: int)
    requires IdsDistinct(s) && 0 <= k < |s|
    ensures FirstIndex(s, s[k].id) == k
  {
  }

  /**
    Create appends exactly one record, at the end, with a fresh id that is
    one more than the largest (1 on an empty table), carrying the submitted
    values; the id invariant is preserved.
   */
  lemma CreateSpec(s: seq<Project>, b: Submission)
    ensures |Created(s, b)| == |s| + 1
    ensures Created(s, b)[..|s|] == s
    ensures !HasId(s, Created(s, b)[|s|].id)
    ensures Created(s, b)[|s|] == Project(NextId(s), b.title, b.technologies, b.description, b.link)
    ensures IdsValid(s) ==> IdsValid(Created(s, b))
  {
    var r := Created(s, b);
    assert r[..|s|] == s;
    if IdsValid(s) {
      assert NextId(s) >= 1 by {
        if |s| > 0 {
          var i :| 0 <= i < |s| && s[i].id == NextId(s) - 1;
        }
      }
    }
  }

  /**
    Update of a present id keeps the length, every id and every other
    record, and patches the found record field by field: a truthy submitted
    value replaces the field, anything else keeps the old value. Update of a
    missing id leaves the table as it was.
   */
  lemma UpdateSpec(s: seq<Project>, id: int, b: Submission)
    ensures |Updated(s, id, b)| == |s|
    ensures forall k :: 0 <= k < |s| ==> Updated(s, id, b)[k].id == s[k].id
    ensures !HasId(s, id) ==> Updated(s, id, b) == s
    ensures HasId(s, id) ==>
      var i := FirstIndex(s, id);
      var p := Updated(s, id, b)[i];
      && (forall k :: 0 <= k < |s| && k != i ==> Updated(s, id, b)[k] == s[k])
      && p.id == id
      && p.title == (if Truthy(b.title) then b.title else s[i].title)
      && p.technologies == (if Truthy(b.technologies) then b.technologies else s[i].technologies)
      && p.description == (if Truthy(b.description) then b.description else s[i].description)
      && p.link == (if Truthy(b.link) then b.link else s[i].link)
  {
  }

  /** Update keeps the id invariant: ids and slots do not move. */
  lemma UpdatePreservesValid(s: seq<Project>, id: int, b: Submission)
    requires IdsValid(s)
    ensures IdsValid(Updated(s, id, b))
  {
    UpdateSpec(s, id, b);
  }

  /** A submission with no truthy value changes nothing, whatever the id. */
  lemma UpdateWithNothingTruthy(s: seq<Project>, id: int, b: Submission)
    requires !Truthy(b.title) && !Truthy(b.technologies) && !Truthy(b.description) && !Truthy(b.link)
    ensures Updated(s, id, b) == s
  {
    var i := FirstIndex(s, id);
    if i != -1 {
      assert Patched(s[i], b) == s[i];
    }
  }

  /** Submitting the same update twice has the effect of submitting it once. */
  lemma UpdateIdempotent(s: seq<Project>, id: int, b: Submission)
    ensures Updated(Updated(s, id, b), id, b) == Updated(s, id, b)
  {
    var i := FirstIndex(s, id);
    if i != -1 {
      var t := Updated(s, id, b);
      assert forall j :: 0 <= j < i ==> t[j] == s[j];
      FirstIndexAt(t, id, i);
    }
  }

  /**
    Where the records of the old table end up after a splice: the table is one
    shorter, records before the slot stay, records after it move down one.
   */
  lemma SpliceOutAt(s: seq<Project>, i: nat)
    requires i < |s|
    ensures |SpliceOut(s, i)| == |s| - 1
    ensures forall j :: 0 <= j < i ==> SpliceOut(s, i)[j] == s[j]
    ensures forall j :: i <= j < |s| - 1 ==> SpliceOut(s, i)[j] == s[j + 1]
  {
    var r := s[..i] + s[i + 1..];
    assert SpliceOut(s, i) == r;
    assert forall j :: 0 <= j < i ==> r[j] == s[..i][j];
    assert forall j :: i <= j < |s| - 1 ==> r[j] == s[i + 1..][j - i];
  }

  /** The records a splice keeps are the old ones outside the slot. */
  lemma SpliceOutMember(s: seq<Project>, i: nat, p: Project)
    requires i < |s|
    ensures p in SpliceOut(s, i) <==> exists k :: 0 <= k < |s| && k != i && s[k] == p
  {
    var r := SpliceOut(s, i);
    SpliceOutAt(s, i);
    if p in r {
      var j :| 0 <= j < |r| && r[j] == p;
      var k := if j < i then j else j + 1;
      assert s[k] == p && k != i;
    }
    if exists k :: 0 <= k < |s| && k != i && s[k] == p {
      var k :| 0 <= k < |s| && k != i && s[k] == p;
      assert r[if k < i then k else k - 1] == p;
    }
  }

  /** The records delete keeps are the old ones carrying another id. */
  lemma DeleteMembers(s: seq<Project>, id: int)
    requires IdsDistinct(s)
    ensures forall p :: p in Deleted(s, id) <==> p in s && p.id != id
  {
    var i := FirstIndex(s, id);
    forall p
      ensures p in Deleted(s, id) <==> p in s && p.id != id
    {
      if i == -1 {
        if p in s {
          var k :| 0 <= k < |s| && s[k] == p;
        }
      } else {
        SpliceOutMember(s, i, p);
      }
    }
  }

  /** The records delete keeps stay in their old relative order. */
  lemma DeleteKeepsOrder(s: seq<Project>, id: int)
    requires IdsDistinct(s)
    ensures forall j, k :: 0 <= j < k < |Deleted(s, id)| ==>
      FirstIndex(s, Deleted(s, id)[j].id) < FirstIndex(s, Deleted(s, id)[k].id)
  {
    var r := Deleted(s, id);
    var i := FirstIndex(s, id);
    if i != -1 {
      SpliceOutAt(s, i);
      forall j | 0 <= j < |r|
        ensures FirstIndex(s, r[j].id) == if j < i then j else j + 1
      {
        FirstIndexOfDistinct(s, if j < i then j else j + 1);
      }
    } else {
      forall j | 0 <= j < |r|
        ensures FirstIndex(s, r[j].id) == j
      {
        FirstIndexOfDistinct(s, j);
      }
    }
  }

  /** Delete keeps the id invariant. */
  lemma DeletePreservesValid(s: seq<Project>, id: int)
    requires IdsValid(s)
    ensures IdsValid(Deleted(s, id))
  {
    var i := FirstIndex(s, id);
    if i != -1 {
      var r := SpliceOut(s, i);
      SpliceOutAt(s, i);
      forall j | 0 <= j < |r|
        ensures r[j] == s[if j < i then j else j + 1]
      {
      }
      forall j, k | 0 <= j < |r| && 0 <= k < |r| && j != k
        ensures r[j].id != r[k].id
      {
        assert r[j] == s[if j < i then j else j + 1];
        assert r[k] == s[if k < i then k else k + 1];
      }
    }
  }

  /**
    Delete of a present id removes exactly that record: the length drops by
    one, the remaining records are the old ones whose id differs, and their
    relative order is the old order. Delete of a missing id changes nothing.
   */
  lemma DeleteSpec(s: seq<Project>, id: int)
    requires IdsValid(s)
    ensures !HasId(s, id) ==> Deleted(s, id) == s
    ensures HasId(s, id) ==> |Deleted(s, id)| == |s| - 1
    ensures forall p :: p in Deleted(s, id) <==> p in s && p.id != id
    ensures forall j, k :: 0 <= j < k < |Deleted(s, id)| ==>
      FirstIndex(s, Deleted(s, id)[j].id) < FirstIndex(s, Deleted(s, id)[k].id)
    ensures IdsValid(Deleted(s, id))
  {
    if HasId(s, id) {
      SpliceOutAt(s, FirstIndex(s, id));
    }
    DeleteMembers(s, id);
    DeleteKeepsOrder(s, id);
    DeletePreservesValid(s, id);
  }

  /** Deleting the id that create just assigned restores the table: delete undoes create. */
  lemma DeleteUndoesCreate(s: seq<Project>, b: Submission)
    ensures Deleted(Created(s, b), NextId(s)) == s
  {
    FirstIndexAt(Created(s, b), NextId(s), |s|);
    assert Created(s, b)[..|s|] == s;
  }

  /**
    The next id is one more than the largest id still present: once the
    record with the largest id is deleted, the next create reissues an id no
    larger than the deleted one.
   */
  lemma DeletingLargestIdLowersNextId(s: seq<Project>)
    requires IdsValid(s) && |s| > 0
    ensures NextId(Deleted(s, MaxId(s))) <= MaxId(s)
  {
    var top := MaxId(s);
    var r := Deleted(s, top);
    var n := NextId(r);
    if |r| > 0 {
      var k :| 0 <= k < |r| && r[k].id == n - 1;
      var p := r[k];
      assert p in r;
      DeleteMembers(s, top);
      assert p in s && p.id != top;
      var j :| 0 <= j < |s| && s[j] == p;
      assert p.id <= top;
    } else {
      var j :| 0 <= j < |s| && s[j].id == top;
      assert s[j].id > 0;
    }
  }

  /**
    On the seed table, deleting id 2, the largest, lets the next create hand
    out 2 again: ids are not retired. `DeletingLargestIdLowersNextId` states
    the general bound.
   */
  lemma DeletedLargestIdIsReused()
    ensures HasId(Seed(), 2) && !HasId(Deleted(Seed(), 2), 2)
    ensures NextId(Deleted(Seed(), 2)) == 2
  {
    var s := Seed();
    assert s[1].id == 2;
    FirstIndexOfDistinct(s, 1);
    assert Deleted(s, 2) == [s[0]];
  }
}
