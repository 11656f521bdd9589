/**
 * The project handlers over an in-memory store: the project, user and membership tables
 * as fields that the mutating handlers reassign, one method per handler, and the
 * read-only handlers as functions. The acting user is a parameter (the login guard's user).
 */
module ProjectStore {
  import opened Wrappers
  import opened Seqs
  import opened Entities
  import opened Access
  import opened Repos
  import opened Queries

  class Store {
    var projects: seq<Project>
    var users: seq<User>
    var relations: seq<Relation>
    /** The id the next inserted project receives. */
    var nextId: int

    /**
     * Project ids are unique and below `nextId`, no stored repository list holds an empty
     * entry, no membership pair is stored twice, and every pair names a stored project.
     */
    ghost predicate Valid()
      reads this
    {
      && UniqueBy(projects, IdOf)
      && (forall p :: p in projects ==> p.id < nextId)
      && (forall p :: p in projects ==> "" !in p.repos)
      && UniqueBy(relations, Pair)
      && (forall r :: r in relations ==> FindProject(projects, r.projectId).Some?)
    }

    constructor (users: seq<User>)
      ensures Valid()
      ensures this.users == users && projects == [] && relations == []
    {
      this.users := users;
      projects := [];
      relations := [];
      nextId := 1;
    }

    /** Inserting a membership pair; the table's uniqueness constraint refuses a pair it holds. */
    method InsertRelation(pair: Relation) returns (status: Status)
      requires Valid() && FindProject(projects, pair.projectId).Some?
      modifies this`relations
      ensures Valid()
      ensures pair in old(relations) ==> status == DuplicateRelation && relations == old(relations)
      ensures pair !in old(relations) ==> status == Ok && relations == old(relations) + [pair]
    {
      if pair in relations {
        status := DuplicateRelation;
      } else {
        ghost var before := relations;
        relations := relations + [pair];
        forall i, j | 0 <= i < |relations| && 0 <= j < |relations| && Pair(relations[i]) == Pair(relations[j])
          ensures i == j
        {
          if i < |before| && j < |before| {
            assert Pair(before[i]) == Pair(before[j]);
          }
        }
        status := Ok;
      }
    }

    /**
     * `project_new_post`: the owner is forced to the creator and the repository list is
     * normalised; the row is inserted, the first project carrying the submitted name is
     * looked up, and the creator is made a member of that project. With a new name that is
     * the inserted project, whose only member is then its creator.
     */
    method NewPost(actor: User, form: ProjectForm) returns (status: Status, id: int)
      requires Valid()
      modifies this`projects, this`relations, this`nextId
      ensures Valid()
      ensures projects == old(projects) + [Project(old(nextId), form.name, actor.id, form.active, Normalise(form.repos))]
      ensures id == if old(FindByName(projects, form.name)).Some?
                    then old(FindByName(projects, form.name)).value.id
                    else old(nextId)
      ensures Relation(id, actor.id) in old(relations) ==>
                status == DuplicateRelation && relations == old(relations)
      ensures Relation(id, actor.id) !in old(relations) ==>
                status == Ok && relations == old(relations) + [Relation(id, actor.id)]
      ensures old(FindByName(projects, form.name)).None? ==>
                && status == Ok
                && FindProject(projects, id) == Some(Project(id, form.name, actor.id, form.active, Normalise(form.repos)))
                && RelationsOf(relations, id) == [Relation(id, actor.id)]
    {
      var created := Project(nextId, form.name, actor.id, form.active, Normalise(form.repos));
      ghost var before, relationsBefore := projects, relations;
      projects := projects + [created];
      nextId := nextId + 1;
      forall i, j | 0 <= i < |projects| && 0 <= j < |projects| && IdOf(projects[i]) == IdOf(projects[j])
        ensures i == j
      {
        if i < |before| && j < |before| {
          assert IdOf(before[i]) == IdOf(before[j]);
        }
      }
      forall r | r in relations
        ensures FindProject(projects, r.projectId).Some?
      {
        assert FindProject(before, r.projectId).value in projects;
      }
      FindByNameAfterAppend(before, created);
      id := FindByName(projects, form.name).value.id;
      status := InsertRelation(Relation(id, actor.id));
      if FindByName(before, form.name).None? {
        FindUnique(projects, created);
        forall r | r in relationsBefore
          ensures !Concerns(id)(r)
        {
          assert FindProject(before, r.projectId).value in before;
        }
        FilterNoneKept(relationsBefore, Concerns(id));
        FilterAppend(relationsBefore, [Relation(id, actor.id)], Concerns(id));
      }
    }

    /** `project_edit`: the edit form, shown to administrators and the owner. */
    function EditForm(actor: User, h: int): (s: Status)
      reads this
      ensures s == NotFound <==> FindProject(projects, h).None?
      ensures s == Ok <==>
                FindProject(projects, h).Some? && MayManageProject(actor, FindProject(projects, h).value.ownerId)
      ensures s == Ok || s == Unauthorized || s == NotFound
    {
      match FindProject(projects, h)
      case None => NotFound
      case Some(p) => Decide(actor, p, EditProject)
    }

    /**
     * `project_edit_put`: administrators and the owner overwrite name, owner, active flag and
     * normalised repositories with the submitted values; the owner is taken from the form,
     * not from the actor. Anyone else gets `Unauthorized` and nothing changes.
     */
    method EditPut(actor: User, h: int, form: ProjectForm) returns (status: Status)
      requires Valid()
      modifies this`projects
      ensures Valid()
      ensures FindProject(old(projects), h).None? ==> status == NotFound
      ensures FindProject(old(projects), h).Some? ==>
                status == Decide(actor, FindProject(old(projects), h).value, EditProject)
      ensures status == Ok ==>
                projects == UpdateProject(old(projects), h, Project(h, form.name, form.ownerId, form.active, Normalise(form.repos)))
      ensures status == Ok ==>
                FindProject(projects, h) == Some(Project(h, form.name, form.ownerId, form.active, Normalise(form.repos)))
      ensures status != Ok ==> projects == old(projects)
    {
      var edited := Project(h, form.name, form.ownerId, form.active, Normalise(form.repos));
      match FindProject(projects, h)
      case None =>
        status := NotFound;
      case Some(p) =>
        status := Decide(actor, p, EditProject);
        if status == Ok {
          UpdateProjectKeepsRows(projects, edited);
          UpdateProjectFinds(projects, edited);
          projects := UpdateProject(projects, h, edited);
        }
    }

    /**
     * `project_delete`: administrators and the owner delete the project's membership pairs,
     * then the project row. Anyone else gets `Unauthorized` and nothing changes.
     */
    method Delete(actor: User, h: int) returns (status: Status)
      requires Valid()
      modifies this`projects, this`relations
      ensures Valid()
      ensures FindProject(old(projects), h).None? ==> status == NotFound
      ensures FindProject(old(projects), h).Some? ==>
                status == Decide(actor, FindProject(old(projects), h).value, DeleteProject)
      ensures status == Ok ==>
                && relations == WithoutProjectRelations(old(relations), h)
                && projects == WithoutProject(old(projects), h)
      ensures status == Ok ==>
                && FindProject(projects, h).None?
                && RelationsOf(relations, h) == []
                && forall g :: g != h ==> RelationsOf(relations, g) == RelationsOf(old(relations), g)
      ensures status != Ok ==> relations == old(relations) && projects == old(projects)
    {
      match FindProject(projects, h)
      case None =>
        status := NotFound;
      case Some(p) =>
        status := Decide(actor, p, DeleteProject);
        forall g | g != h
          ensures RelationsOf(WithoutProjectRelations(relations, h), g) == RelationsOf(relations, g)
        {
          CascadeSparesOthers(relations, h, g);
        }
        CascadeLeavesNone(relations, h);
        if status == Ok {
          ghost var before := projects;
          FilterUniqueBy(relations, Spares(h), Pair);
          FilterUniqueBy(projects, OtherThan(h), IdOf);
          relations := WithoutProjectRelations(relations, h);
          projects := WithoutProject(projects, h);
          forall r | r in relations
            ensures FindProject(projects, r.projectId).Some?
          {
            assert FindProject(before, r.projectId).value in projects;
          }
        }
    }

    /**
     * `project_users` on a stored project (the members JSON view): the member users in
     * relation order; `None` when the project or one of the users is missing.
     */
    function Members(h: int): (r: Option<seq<User>>)
      reads this
      ensures FindProject(projects, h).None? ==> r.None?
      ensures r.Some? <==> FindProject(projects, h).Some? && UsersOf(RelationsOf(relations, h), users).Some?
      ensures r.Some? ==>
                && |r.value| == |RelationsOf(relations, h)|
                && forall k :: 0 <= k < |r.value| ==>
                     r.value[k] in users && r.value[k].id == RelationsOf(relations, h)[k].userId
    {
      if FindProject(projects, h).None? then None
      else UsersOf(RelationsOf(relations, h), users)
    }

    /**
     * `project_member_add`: the users who may be added, i.e. every user who is not a
     * member yet, shown to tiers above 0 and the owner. The members are loaded first, so a
     * missing user row fails the form whoever asks.
     */
    function MemberAddForm(actor: User, h: int): (r: Result<seq<User>, Status>)
      reads this
      ensures r.Failure? ==> r.error == NotFound || r.error == Unauthorized
      ensures r == Failure(NotFound) <==> Members(h).None?
      ensures Members(h).Some? && MayManageMembers(actor, FindProject(projects, h).value.ownerId) ==> r.Success?
      ensures r.Failure? && r.error == Unauthorized ==>
                FindProject(projects, h).Some? && !MayManageMembers(actor, FindProject(projects, h).value.ownerId)
      ensures r.Success? ==>
                && FindProject(projects, h).Some?
                && MayManageMembers(actor, FindProject(projects, h).value.ownerId)
                && Members(h).Some?
                && forall u :: u in r.value <==> u in users && u !in Members(h).value
    {
      match Members(h)
      case None => Failure(NotFound)
      case Some(members) =>
        if Decide(actor, FindProject(projects, h).value, AddMember) == Ok
        then Success(Candidates(users, members))
        else Failure(Unauthorized)
    }

    /**
     * `project_member_add_post`: tiers above 0 and the owner insert the pair (h, uid); a
     * pair already stored is refused by the table. Anyone else gets `Unauthorized`.
     */
    method MemberAddPost(actor: User, h: int, uid: int) returns (status: Status)
      requires Valid()
      modifies this`relations
      ensures Valid()
      ensures FindProject(projects, h).None? ==> status == NotFound && relations == old(relations)
      ensures FindProject(projects, h).Some? && Decide(actor, FindProject(projects, h).value, AddMember) == Unauthorized ==>
                status == Unauthorized && relations == old(relations)
      ensures FindProject(projects, h).Some? && Decide(actor, FindProject(projects, h).value, AddMember) == Ok ==>
                if Relation(h, uid) in old(relations)
                then status == DuplicateRelation && relations == old(relations)
                else status == Ok && relations == old(relations) + [Relation(h, uid)]
    {
      match FindProject(projects, h)
      case None =>
        status := NotFound;
      case Some(p) =>
        status := Decide(actor, p, AddMember);
        if status == Ok {
          status := InsertRelation(Relation(h, uid));
        }
    }

    /**
     * `project_member_delete`: tiers above 0 and the owner delete the pair (h, uid), which
     * changes nothing when the pair is absent. Anyone else gets `Unauthorized`.
     */
    method MemberDelete(actor: User, h: int, uid: int) returns (status: Status)
      requires Valid()
      modifies this`relations
      ensures Valid()
      ensures FindProject(projects, h).None? ==> status == NotFound
      ensures FindProject(projects, h).Some? ==>
                status == Decide(actor, FindProject(projects, h).value, RemoveMember)
      ensures status == Ok ==> relations == WithoutRelation(old(relations), Relation(h, uid))
      ensures status == Ok && Relation(h, uid) !in old(relations) ==> relations == old(relations)
      ensures status != Ok ==> relations == old(relations)
    {
      match FindProject(projects, h)
      case None =>
        status := NotFound;
      case Some(p) =>
        status := Decide(actor, p, RemoveMember);
        if status == Ok {
          if Relation(h, uid) !in relations {
            RemoveAbsentRelation(relations, Relation(h, uid));
          }
          FilterUniqueBy(relations, IsNot(Relation(h, uid)), Pair);
          relations := WithoutRelation(relations, Relation(h, uid));
        }
    }

    /**
     * `project_join_post`: on an active project the actor's own pair (h, actor.id) is
     * inserted, whatever the actor's tier; an inactive project answers `Conflict`, never
     * `Unauthorized`, and nothing is inserted.
     */
    method JoinPost(actor: User, h: int) returns (status: Status)
      requires Valid()
      modifies this`relations
      ensures Valid()
      ensures status != Unauthorized
      ensures FindProject(projects, h).None? ==> status == NotFound && relations == old(relations)
      ensures FindProject(projects, h).Some? && !FindProject(projects, h).value.active ==>
                status == Conflict && relations == old(relations)
      ensures FindProject(projects, h).Some? && FindProject(projects, h).value.active ==>
                if Relation(h, actor.id) in old(relations)
                then status == DuplicateRelation && relations == old(relations)
                else status == Ok && relations == old(relations) + [Relation(h, actor.id)]
    {
      match FindProject(projects, h)
      case None =>
        status := NotFound;
      case Some(p) =>
        status := Decide(actor, p, Join);
        if status == Ok {
          status := InsertRelation(Relation(h, actor.id));
        }
    }
  }
}
