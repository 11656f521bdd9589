/**
 * The access rules the handlers apply before touching the store. Edit, delete and the
 * edit form need an administrator (tier above 1) or the owner; adding and removing members
 * and the add-member form need tier above 0 or the owner; joining needs only that the
 * project is active, and refuses with `Conflict` rather than `Unauthorized`.
 */
module Access {
  import opened Entities

  datatype Operation = EditProject | DeleteProject | AddMember | RemoveMember | Join

  /** The test at the edit form, the edit and the delete: an administrator or the owner. */
  predicate MayManageProject(actor: User, ownerId: int): (b: bool)
    ensures actor.id == ownerId ==> b
    ensures b ==> MayManageMembers(actor, ownerId)
  {
    actor.tier > 1 || actor.id == ownerId
  }

  /** The test at the add form, adding and removing: a tier above 0 or the owner. */
  predicate MayManageMembers(actor: User, ownerId: int): (b: bool)
    ensures actor.id == ownerId ==> b
    ensures !b ==> actor.tier <= 0
  {
    actor.tier > 0 || actor.id == ownerId
  }

  /** The outcome of the access test a handler performs for `op` on project `p`. */
  function Decide(actor: User, p: Project, op: Operation): (s: Status)
    ensures s == Ok || s == Unauthorized || s == Conflict
    ensures s == Conflict <==> op == Join && !p.active
    ensures s == Unauthorized ==> op != Join
  {
    match op
    case EditProject | DeleteProject =>
      if MayManageProject(actor, p.ownerId) then Ok else Unauthorized
    case AddMember | RemoveMember =>
      if MayManageMembers(actor, p.ownerId) then Ok else Unauthorized
    case Join =>
      if p.active then Ok else Conflict
  }

  /** Editing and deleting are allowed exactly to administrators and the owner. */
  lemma ProjectRule(actor: User, p: Project, op: Operation)
    requires op == EditProject || op == DeleteProject
    ensures Decide(actor, p, op) == Ok <==> actor.tier > 1 || actor.id == p.ownerId
    ensures Decide(actor, p, op) != Ok ==> Decide(actor, p, op) == Unauthorized
  {
  }

  /** Managing members is allowed exactly to tiers above 0 and the owner. */
  lemma MemberRule(actor: User, p: Project, op: Operation)
    requires op == AddMember || op == RemoveMember
    ensures Decide(actor, p, op) == Ok <==> actor.tier > 0 || actor.id == p.ownerId
    ensures Decide(actor, p, op) != Ok ==> Decide(actor, p, op) == Unauthorized
  {
  }

  /** Joining depends on the project's state alone: no tier or identity changes the answer. */
  lemma JoinIgnoresActor(a: User, b: User, p: Project)
    ensures Decide(a, p, Join) == Decide(b, p, Join)
    ensures Decide(a, p, Join) == if p.active then Ok else Conflict
  {
  }

  /** Whoever may edit or delete a project may also manage its members. */
  lemma ProjectRightsIncludeMemberRights(actor: User, p: Project)
    requires Decide(actor, p, EditProject) == Ok
    ensures Decide(actor, p, AddMember) == Ok && Decide(actor, p, RemoveMember) == Ok
  {
  }

  /** Raising an actor's tier never takes a permission away. */
  lemma TierMonotone(actor: User, p: Project, op: Operation, tier: int)
    requires actor.tier <= tier && Decide(actor, p, op) == Ok
    ensures Decide(actor.(tier := tier), p, op) == Ok
  {
  }
}
