/**
 * The rows the project handlers read and write. The repository list of a project is
 * kept already decoded (the database column holds it as a JSON array of strings).
 */
module Entities {
  /** A user row; `name` stands for the columns the handlers never look at. */
  datatype User = User(id: int, name: string, tier: int)

  /** A project row. */
  datatype Project = Project(id: int, name: string, ownerId: int, active: bool, repos: seq<string>)

  /** The `NewProject` form submitted to create or to edit a project. */
  datatype ProjectForm = ProjectForm(name: string, ownerId: int, active: bool, repos: seq<string>)

  /** A row of the `relation_project_user` table: `userId` is a member of `projectId`. */
  datatype Relation = Relation(projectId: int, userId: int)

  /**
   * What a handler answers. `Ok` is the redirect after success; `Unauthorized` and
   * `Conflict` are the statuses the handlers return themselves. `NotFound` stands for the
   * panic on a missing project row, `DuplicateRelation` for the panic when the store
   * refuses a relation pair it already holds.
   */
  datatype Status = Ok | Unauthorized | Conflict | NotFound | DuplicateRelation
}
