/**
 * The queries the handlers run against the three tables, over in-memory rows kept in
 * table order: finding a row, the `delete ... filter(..)` statements (as what they leave
 * behind), the `update` of one project, and the read-side filters `filter_projects`,
 * `project_users` and the add-member candidate list.
 */
module Queries {
  import opened Wrappers
  import opened Seqs
  import opened Entities

  function IdOf(p: Project): int
  {
    p.id
  }

  /** The columns of the relation table's uniqueness constraint. */
  function Pair(r: Relation): (int, int)
  {
    (r.projectId, r.userId)
  }

  function HasId(h: int): Project -> bool
  {
    (p: Project) => p.id == h
  }

  function HasName(name: string): Project -> bool
  {
    (p: Project) => p.name == name
  }

  function OtherThan(h: int): Project -> bool
  {
    (p: Project) => p.id != h
  }

  function UserHasId(uid: int): User -> bool
  {
    (u: User) => u.id == uid
  }

  function Concerns(h: int): Relation -> bool
  {
    (r: Relation) => r.projectId == h
  }

  function Spares(h: int): Relation -> bool
  {
    (r: Relation) => r.projectId != h
  }

  function IsNot(pair: Relation): Relation -> bool
  {
    (r: Relation) => r != pair
  }

  function NotAmong(members: seq<User>): User -> bool
  {
    (u: User) => u !in members
  }

  /** `name LIKE '%term%'`: the term occurs in the name. */
  predicate Contains(name: string, term: string): (b: bool)
    ensures term == "" ==> b
    ensures term <= name ==> b
    ensures b ==> |term| <= |name|
  {
    assert name[0..] == name;
    exists i :: 0 <= i <= |name| && term <= name[i..]
  }

  function NameContains(term: string): Project -> bool
  {
    (p: Project) => Contains(p.name, term)
  }

  /** `projects.find(h).first()` */
  function FindProject(projects: seq<Project>, h: int): (r: Option<Project>)
    ensures r.Some? ==> r.value in projects && r.value.id == h
    ensures r.None? <==> forall p :: p in projects ==> p.id != h
  {
    First(projects, HasId(h))
  }

  /** `projects.filter(name.eq(n)).first()` */
  function FindByName(projects: seq<Project>, name: string): (r: Option<Project>)
    ensures r.Some? ==> r.value in projects && r.value.name == name
    ensures r.None? <==> forall p :: p in projects ==> p.name != name
  {
    First(projects, HasName(name))
  }

  /** `users.find(uid).first()` */
  function FindUser(users: seq<User>, uid: int): (r: Option<User>)
    ensures r.Some? ==> r.value in users && r.value.id == uid
    ensures r.None? <==> forall u :: u in users ==> u.id != uid
  {
    First(users, UserHasId(uid))
  }

  /** With unique ids, the row found for an id is the one row carrying it. */
  lemma FindUnique(projects: seq<Project>, p: Project)
    requires UniqueBy(projects, IdOf) && p in projects
    ensures FindProject(projects, p.id) == Some(p)
  {
    var i :| 0 <= i < |projects| && projects[i] == p;
    forall j | 0 <= j < i
      ensures !HasId(p.id)(projects[j])
    {
      assert IdOf(projects[j]) != IdOf(projects[i]);
    }
    FirstEarliest(projects, HasId(p.id), i);
  }

  /**
   * Looking a name up after appending a row finds an older row of that name if there is
   * one, and the appended row only when the name was new.
   */
  lemma FindByNameAfterAppend(projects: seq<Project>, q: Project)
    ensures FindByName(projects + [q], q.name) ==
              if FindByName(projects, q.name).Some? then FindByName(projects, q.name) else Some(q)
  {
    FirstAppend(projects, [q], HasName(q.name));
    assert First([q], HasName(q.name)) == Some(q);
  }

  /** `RelationProjectUser::belonging_to(project)`, in table order. */
  function RelationsOf(relations: seq<Relation>, h: int): (r: seq<Relation>)
    ensures forall x :: x in r <==> x in relations && x.projectId == h
  {
    Filter(relations, Concerns(h))
  }

  /** The relation table after `delete(relation_project_user.filter(project_id.eq(h)))`. */
  function WithoutProjectRelations(relations: seq<Relation>, h: int): (r: seq<Relation>)
    ensures forall x :: x in r <==> x in relations && x.projectId != h
  {
    Filter(relations, Spares(h))
  }

  /** The relation table after deleting the rows equal to `pair`. */
  function WithoutRelation(relations: seq<Relation>, pair: Relation): (r: seq<Relation>)
    ensures forall x :: x in r <==> x in relations && x != pair
  {
    Filter(relations, IsNot(pair))
  }

  /** The project table after `delete(projects.find(h))`. */
  function WithoutProject(projects: seq<Project>, h: int): (r: seq<Project>)
    ensures forall p :: p in r <==> p in projects && p.id != h
  {
    Filter(projects, OtherThan(h))
  }

  /** The project table after `update(projects.find(h)).set(..)` writes the row `q`. */
  function UpdateProject(projects: seq<Project>, h: int, q: Project): (r: seq<Project>)
    ensures |r| == |projects|
    ensures forall i :: 0 <= i < |r| ==> r[i] == if projects[i].id == h then q else projects[i]
  {
    if projects == [] then []
    else [if projects[0].id == h then q else projects[0]] + UpdateProject(projects[1..], h, q)
  }

  /** Updating a row with a row of the same id keeps every position's id. */
  lemma UpdateProjectKeepsIds(projects: seq<Project>, q: Project)
    ensures |UpdateProject(projects, q.id, q)| == |projects|
    ensures forall i :: 0 <= i < |projects| ==> UpdateProject(projects, q.id, q)[i].id == projects[i].id
  {
  }

  /**
   * Updating the stored row with `q`'s id keeps ids unique and the set of stored ids as it
   * was; every row is `q` or an old one.
   */
  lemma UpdateProjectKeepsRows(projects: seq<Project>, q: Project)
    requires UniqueBy(projects, IdOf)
    ensures UniqueBy(UpdateProject(projects, q.id, q), IdOf)
    ensures forall x :: FindProject(UpdateProject(projects, q.id, q), x).Some? <==> FindProject(projects, x).Some?
    ensures forall p :: p in UpdateProject(projects, q.id, q) ==> p == q || p in projects
  {
    var r := UpdateProject(projects, q.id, q);
    UpdateProjectKeepsIds(projects, q);
    forall i, j | 0 <= i < |r| && 0 <= j < |r| && IdOf(r[i]) == IdOf(r[j])
      ensures i == j
    {
      assert IdOf(projects[i]) == IdOf(projects[j]);
    }
    forall x | FindProject(projects, x).Some?
      ensures FindProject(r, x).Some?
    {
      var i :| 0 <= i < |projects| && projects[i] == FindProject(projects, x).value;
      assert r[i].id == x;
    }
    forall x | FindProject(r, x).Some?
      ensures FindProject(projects, x).Some?
    {
      var i :| 0 <= i < |r| && r[i] == FindProject(r, x).value;
      assert projects[i].id == x;
    }
  }

  /** After the update, `q`'s id finds `q`. */
  lemma UpdateProjectFinds(projects: seq<Project>, q: Project)
    requires UniqueBy(projects, IdOf) && FindProject(projects, q.id).Some?
    ensures FindProject(UpdateProject(projects, q.id, q), q.id) == Some(q)
  {
    var r := UpdateProject(projects, q.id, q);
    UpdateProjectKeepsRows(projects, q);
    var i :| 0 <= i < |projects| && projects[i] == FindProject(projects, q.id).value;
    assert r[i] == q;
    FindUnique(r, q);
  }

  /** After a cascade delete no relation refers to the project. */
  lemma CascadeLeavesNone(relations: seq<Relation>, h: int)
    ensures RelationsOf(WithoutProjectRelations(relations, h), h) == []
  {
    FilterNoneKept(WithoutProjectRelations(relations, h), Concerns(h));
  }

  /** A cascade delete leaves the membership of every other project as it was, in order. */
  lemma {:induction false} CascadeSparesOthers(relations: seq<Relation>, h: int, g: int)
    requires g != h
    ensures RelationsOf(WithoutProjectRelations(relations, h), g) == RelationsOf(relations, g)
  {
    if relations != [] {
      var x, rest := relations[0], relations[1..];
      CascadeSparesOthers(rest, h, g);
      if x.projectId != h {
        assert WithoutProjectRelations(relations, h) == [x] + WithoutProjectRelations(rest, h);
        assert ([x] + WithoutProjectRelations(rest, h))[1..] == WithoutProjectRelations(rest, h);
      }
    }
  }

  /** Removing a pair that is not there leaves the table as it was. */
  lemma RemoveAbsentRelation(relations: seq<Relation>, pair: Relation)
    requires pair !in relations
    ensures WithoutRelation(relations, pair) == relations
  {
    FilterAllKept(relations, IsNot(pair));
  }

  /** `filter_projects`: every project, or those whose name contains the term, in table order. */
  function FilterProjects(projects: seq<Project>, term: Option<string>): (r: seq<Project>)
    ensures term.None? ==> r == projects
    ensures term.Some? ==> forall p :: p in r <==> p in projects && Contains(p.name, term.value)
  {
    match term
    case None => projects
    case Some(t) => Filter(projects, NameContains(t))
  }

  /** The search keeps table order and drops exactly the projects whose name lacks the term. */
  lemma FilterProjectsInOrder(projects: seq<Project>, term: string)
    ensures SelectedAt(FilterProjects(projects, Some(term)), projects, KeptIndices(projects, NameContains(term)))
    ensures forall i :: 0 <= i < |projects| ==>
              (i in KeptIndices(projects, NameContains(term)) <==> Contains(projects[i].name, term))
  {
    FilterSelects(projects, NameContains(term));
    KeptIndicesExact(projects, NameContains(term));
  }

  /** The pattern `%%` of an empty term matches every name. */
  lemma EmptyTermFindsAll(projects: seq<Project>)
    ensures FilterProjects(projects, Some("")) == projects
  {
    forall p | p in projects
      ensures NameContains("")(p)
    {
      assert "" <= p.name[0..];
    }
    FilterAllKept(projects, NameContains(""));
  }

  /**
   * `project_users`: each relation mapped to its user row, in relation order. A relation
   * whose user row is missing makes the source panic; that is `None` here.
   */
  function UsersOf(relations: seq<Relation>, users: seq<User>): (r: Option<seq<User>>)
    ensures r.Some? <==> forall k :: 0 <= k < |relations| ==> FindUser(users, relations[k].userId).Some?
    ensures r.Some? ==>
              && |r.value| == |relations|
              && forall k :: 0 <= k < |relations| ==> FindUser(users, relations[k].userId) == Some(r.value[k])
  {
    if relations == [] then Some([])
    else
      match FindUser(users, relations[0].userId)
      case None => None
      case Some(u) =>
        match UsersOf(relations[1..], users)
        case None => None
        case Some(rest) => Some([u] + rest)
  }

  /** The add-member form's list: every user, in table order, who is not already a member. */
  function Candidates(users: seq<User>, members: seq<User>): (r: seq<User>)
    ensures forall u :: u in r <==> u in users && u !in members
  {
    Filter(users, NotAmong(members))
  }
}
