# Observatory projects handlers, modelled in Dafny

Observatory is a Rocket web application in which users create projects, join
them and manage their members. The project handlers in
`src/projects/handlers.rs` check who may do what and then change three tables:
projects, users, and the membership relation (pairs of project id and user id).
They also normalise the repository list a project stores. For the commit view
they pick the GitHub repositories out of that list and rewrite each one into a
GitHub API endpoint.

This project models that logic.

- `Seqs` holds the generic sequence operations the handlers' iterator chains use:
  `Filter`, `First` and `KeptIndices`, with their order and uniqueness lemmas.
  `Wrappers` holds the `Option` and `Result` types.
- `Entities` holds the rows (`User`, `Project`, `Relation`), the submitted
  `ProjectForm` and the `Status` a handler answers with.
- `Access` holds the three access rules: managing a project, managing its
  members, and joining it.
- `Repos` holds the normalisation of a submitted repository list.
- `GitHub` holds the hand-written matcher for the pattern
  `^(https?://)?github\.com/(\S+/\S+)/?$` and its rewrite. It also gives the
  pattern as a grammar and proves that the matcher agrees with it.
- `Commits` holds the control flow of `project_commits`. The HTTP fetch is a
  function parameter.
- `Queries` holds the table queries as functions on sequences: lookups, the
  deletes, the update, `filter_projects`, `project_users` and the add-member
  candidate list.
- `ProjectStore.Store` is a class whose fields are the three tables and the next
  project id. It has one method per mutating handler. Each method keeps the
  store invariant `Valid()` and states the new state in terms of the functions
  in `Queries`.
- `Scenarios` works the rules through on concrete inputs.

The acting user (the login guard's user) is a parameter of every handler.

Some behaviour of the code is easy to miss, and the model keeps it:

- The pattern's greedy group 2 takes a trailing `/` of the URL along, so the
  endpoint contains it rather than dropping it.
- Inserting a membership pair that is already stored makes the handler panic
  on the table's uniqueness constraint, which gives HTTP 500 rather than
  `Conflict`. The model answers `DuplicateRelation`.
- Creating a project under a name that is already taken makes the creator a
  member of the older project of that name. The new project is left with no
  member at all.
- The commit endpoints are fetched one after another, in list order, and the
  first failed fetch ends the whole call.

## Model

| member | source | states |
|---|---|---|
| `Seqs.Filter` | src/projects/handlers.rs:62-68 | the result holds exactly the elements of the input that are kept, and is no longer than the input |
| `Seqs.FilterSelects` | src/projects/handlers.rs:410-416 | filtering keeps order: the result is the input read at the kept positions, in increasing order |
| `Seqs.KeptIndicesExact` | src/projects/handlers.rs:410-416 | the kept positions are exactly those whose element passes the test |
| `Seqs.First` | src/projects/handlers.rs:77-80 | the first element passing the test, and `None` exactly when no element passes |
| `Seqs.FirstEarliest` | src/projects/handlers.rs:77-80 | the element found is the one at the earliest passing position |
| `Seqs.FirstAppend` | src/projects/handlers.rs:72-80 | a lookup after appending finds an older element first |
| `Seqs.FilterUniqueBy` | src/projects/handlers.rs:166-172 | deleting rows keeps a uniqueness constraint |
| `Seqs.FilterAppend` | src/projects/handlers.rs:62-68 | filtering distributes over concatenation |
| `Seqs.FilterIdempotent` | src/projects/handlers.rs:62-68 | filtering twice is filtering once |
| `Seqs.FilterAllKept` | src/projects/handlers.rs:62-68 | when every element passes, the filter changes nothing |
| `Seqs.FilterNoneKept` | src/projects/handlers.rs:166-168 | when no element passes, the filter leaves nothing |
| `Access.MayManageProject` | src/projects/handlers.rs:107 | the administrator-or-owner test of lines 107, 145 and 164: the owner always passes, and whoever passes may also manage members |
| `Access.MayManageMembers` | src/projects/handlers.rs:226 | the tier-above-0-or-owner test of lines 226, 265 and 296: the owner always passes, and whoever fails has tier 0 or below |
| `Access.Decide` | src/projects/handlers.rs:329-341 | the access outcome is Ok, Unauthorized or Conflict; Conflict happens exactly for a join on an inactive project; a join is never Unauthorized |
| `Access.ProjectRule` | src/projects/handlers.rs:107-118 | editing and deleting are allowed exactly when the tier is above 1 or the actor owns the project; any refusal is Unauthorized |
| `Access.MemberRule` | src/projects/handlers.rs:226 | adding and removing members are allowed exactly when the tier is above 0 or the actor owns the project; any refusal is Unauthorized |
| `Access.JoinIgnoresActor` | src/projects/handlers.rs:323-341 | the join outcome depends only on the active flag: Ok when active, Conflict otherwise, for every actor |
| `Access.ProjectRightsIncludeMemberRights` | src/projects/handlers.rs:164 | whoever may edit a project may also manage its members |
| `Access.TierMonotone` | src/projects/handlers.rs:265 | raising the tier never takes a permission away |
| `Repos.Normalise` | src/projects/handlers.rs:131-138 | the stored list holds exactly the non-empty submitted entries, has no empty entry and is no longer than the submitted list |
| `Repos.NormaliseExact` | src/projects/handlers.rs:62-69 | exactly the empty entries are removed and order is kept |
| `Repos.NormaliseIdempotent` | src/projects/handlers.rs:62-68 | normalising twice equals normalising once |
| `Repos.NormaliseClean` | src/projects/handlers.rs:131-137 | a list without empty entries is stored unchanged |
| `Repos.NormaliseAppend` | src/projects/handlers.rs:62-68 | normalisation distributes over concatenation |
| `GitHub.SchemeOf` | src/projects/handlers.rs:408 | the scheme found is a prefix of the URL |
| `GitHub.Remainder` | src/projects/handlers.rs:408 | the URL is the scheme, then `github.com/`, then the remainder |
| `GitHub.IsGitHubRepo` | src/projects/handlers.rs:408-412 | `re.is_match`: a URL is accepted exactly when the pattern has a parse of it |
| `GitHub.ApiUrl` | src/projects/handlers.rs:413-414 | `re.replace` on an accepted URL: for every parse of the pattern, the rewrite is the API prefix, group 2 with the optional `/`, and the suffix |
| `GitHub.Endpoint` | src/projects/handlers.rs:408-414 | an entry gives an endpoint exactly when the pattern parses it, and that endpoint carries group 2 with the optional `/` |
| `GitHub.ParseDeterminesRemainder` | src/projects/handlers.rs:408 | every parse of the pattern leaves group 2 and the optional `/` as the text after `github.com/` |
| `GitHub.ParseIffRepoPath` | src/projects/handlers.rs:408 | the matcher's test on that text holds exactly when the pattern has a parse |
| `GitHub.RemainderAfterScheme` | src/projects/handlers.rs:408 | each of the three scheme alternatives is recognised, and the matcher finds the remainder after it |
| `GitHub.Group2IsRepoPath` | src/projects/handlers.rs:408 | group 2 followed by the optional `/` passes the matcher's remainder test |
| `GitHub.MatchComplete` | src/projects/handlers.rs:408-414 | every parse of the pattern is accepted, and the endpoint is the API prefix, group 2 with the optional `/`, and the suffix |
| `GitHub.RepoPathIsGroup2` | src/projects/handlers.rs:408 | a remainder the matcher accepts splits as `\S+/\S+` |
| `GitHub.MatchSound` | src/projects/handlers.rs:408-414 | every accepted URL is a parse of the pattern whose group 2 is the whole remainder, and the endpoint carries that remainder |
| `GitHub.NoMatch` | src/projects/handlers.rs:408-412 | a refused URL has no parse of the pattern at all |
| `GitHub.ApiUrls` | src/projects/handlers.rs:413-415 | one rewrite per matching entry, position by position |
| `GitHub.Endpoints` | src/projects/handlers.rs:410-416 | one endpoint per matching entry, the k-th being the endpoint of the k-th matching entry |
| `GitHub.EndpointsInOrder` | src/projects/handlers.rs:410-416 | the k-th endpoint is the rewrite of the k-th matching entry in list order, and exactly the matching entries give endpoints |
| `GitHub.EndpointsMembers` | src/projects/handlers.rs:410-416 | the endpoints are exactly the rewrites of the matching entries |
| `GitHub.EndpointsEmpty` | src/projects/handlers.rs:419-421 | no endpoint is produced exactly when no entry matches |
| `Commits.FetchAll` | src/projects/handlers.rs:424-433 | success exactly when every fetch succeeds, with one body per endpoint in order; otherwise the error is the first endpoint whose fetch failed |
| `Commits.ProjectCommits` | src/projects/handlers.rs:387-435 | `None` exactly when no entry matches, including the empty list; otherwise one body per endpoint in order, or failure on an endpoint whose fetch failed |
| `Commits.CommitsFetchedIff` | src/projects/handlers.rs:424-433 | with some matching entry, the call succeeds exactly when the fetch of every matching entry's endpoint succeeds |
| `Queries.FindProject` | src/projects/handlers.rs:140-143 | the project found carries the id, and `None` exactly when no project carries it |
| `Queries.FindByName` | src/projects/handlers.rs:77-80 | the project found carries the name, and `None` exactly when no project carries it |
| `Queries.FindUser` | src/projects/handlers.rs:370-373 | the user found carries the id, and `None` exactly when no user carries it |
| `Queries.FindUnique` | src/projects/handlers.rs:20-24 | with unique ids, looking up a stored project's id finds that project |
| `Queries.FindByNameAfterAppend` | src/projects/handlers.rs:72-80 | after inserting a project, the lookup by its name finds an older project of that name if there is one, and the new project otherwise |
| `Queries.RelationsOf` | src/projects/handlers.rs:364-366 | exactly the relations of the project |
| `Queries.WithoutProjectRelations` | src/projects/handlers.rs:166-168 | the relation table after the cascade keeps exactly the relations of other projects |
| `Queries.WithoutRelation` | src/projects/handlers.rs:298-300 | the relation table keeps everything except the deleted pair |
| `Queries.WithoutProject` | src/projects/handlers.rs:170-172 | the project table keeps exactly the other projects |
| `Queries.UpdateProject` | src/projects/handlers.rs:146-149 | the row with the id is replaced and every other row stays in its place |
| `Queries.UpdateProjectKeepsIds` | src/projects/handlers.rs:146-149 | an update with the same id keeps every position's id |
| `Queries.UpdateProjectKeepsRows` | src/projects/handlers.rs:146-149 | the update keeps ids unique and the set of stored ids as it was; every row is the new one or an old one |
| `Queries.UpdateProjectFinds` | src/projects/handlers.rs:146-149 | after the update, the id finds the new row |
| `Queries.CascadeLeavesNone` | src/projects/handlers.rs:166-168 | after the cascade no relation refers to the project |
| `Queries.CascadeSparesOthers` | src/projects/handlers.rs:165-172 | the cascade leaves every other project's members as they were, in order |
| `Queries.RemoveAbsentRelation` | src/projects/handlers.rs:298-300 | removing an absent pair changes nothing |
| `Queries.Contains` | src/projects/handlers.rs:352-353 | `name LIKE '%term%'` as a substring test: the empty term and a prefix always match, and a match is no longer than the name |
| `Queries.FilterProjects` | src/projects/handlers.rs:348-359 | without a term every project, in order; with a term exactly the projects whose name contains it |
| `Queries.FilterProjectsInOrder` | src/projects/handlers.rs:351-354 | the search keeps table order and drops exactly the projects whose name lacks the term |
| `Queries.EmptyTermFindsAll` | src/projects/handlers.rs:352-354 | an empty term finds every project |
| `Queries.UsersOf` | src/projects/handlers.rs:363-376 | one user per relation, in relation order, each the user the relation names; `None` exactly when some user is missing |
| `Queries.Candidates` | src/projects/handlers.rs:230-238 | exactly the users who are not members |
| `ProjectStore.Store.InsertRelation` | src/projects/handlers.rs:83-89 | a new pair is appended; a stored pair is refused and the table is unchanged |
| `ProjectStore.Store.NewPost` | src/projects/handlers.rs:53-92 | appends the project with the next id, the actor as owner and the normalised list; makes the actor a member of the first project with the submitted name; with a new name, the project found is the new one and its only member is the actor |
| `ProjectStore.Store.EditForm` | src/projects/handlers.rs:94-119 | NotFound exactly when the project is missing; Ok exactly when the actor may manage it |
| `ProjectStore.Store.EditPut` | src/projects/handlers.rs:121-154 | writes the submitted name, owner, flag and normalised list into the row when allowed; otherwise Unauthorized and the table is unchanged |
| `ProjectStore.Store.Delete` | src/projects/handlers.rs:156-177 | when allowed, removes the project's relations and then its row, leaving other projects and their members as they were; otherwise Unauthorized and nothing changes |
| `ProjectStore.Store.Members` | src/projects/handlers.rs:197-206 | one user per relation of the project, in relation order; `None` exactly when the project or one of its members' user rows is missing |
| `ProjectStore.Store.MemberAddForm` | src/projects/handlers.rs:208-243 | NotFound exactly when the project or a member's user row is missing; otherwise the candidates, exactly the users who are not members, are shown if and only if the actor may manage members, and Unauthorized is the answer otherwise |
| `ProjectStore.Store.MemberAddPost` | src/projects/handlers.rs:250-278 | when allowed, appends the pair or refuses a stored one; otherwise Unauthorized and nothing changes |
| `ProjectStore.Store.MemberDelete` | src/projects/handlers.rs:280-305 | when allowed, removes exactly the pair, and changes nothing when it is absent; otherwise Unauthorized and nothing changes |
| `ProjectStore.Store.JoinPost` | src/projects/handlers.rs:319-342 | on an active project appends the actor's own pair, whatever the tier; an inactive project gives Conflict, never Unauthorized, and nothing is inserted |
| `Scenarios.WidgetsMatches` | src/projects/handlers.rs:408-414 | `https://github.com/acme/widgets` becomes its commits API endpoint |
| `Scenarios.TrailingSlashKept` | src/projects/handlers.rs:408-414 | `github.com/acme/widgets/` is accepted and its endpoint keeps the `/` |
| `Scenarios.NotARepoRefused` | src/projects/handlers.rs:412 | a string without the host is refused |
| `Scenarios.WidgetsStoredAndFetched` | src/projects/handlers.rs:387-435 | a submitted list is stored without its empty entry, and only its GitHub entry is fetched |

## Left out

- Rocket routing, guards, templates, redirects and the `format!` URLs. Each
  handler's outcome is a `Status`, and the logged-in user is a parameter.
- Diesel and SQLite. The tables are sequences in table order. Ids come from a
  counter that starts at 1.
- The uniqueness constraint on membership pairs is defined outside this file.
  The store enforces it by refusing a stored pair.
- SQLite's `LIKE` is case-insensitive for ASCII, and a `%` or `_` inside the
  search term acts as a wildcard. `Queries.FilterProjects` models
  `LIKE '%term%'` as a plain substring test instead.
- JSON decoding and encoding of the `repos` column is done by `serde_json`.
  Lists are kept decoded, so the panic on a malformed list (lines 63-64, 345
  and 398) is not modelled.
- Re-reading `repos` from the database in `project_commits` is not modelled.
  The model passes the stored list instead.
- The HTTP request and JSON parse done by `reqwest` are the parameter `fetch`.
  A failed request or parse panics in the source. Here it fails the whole call.
- Panics on a missing row are the `NotFound` outcome. A panic when inserting a
  stored pair is `DuplicateRelation`. Both are HTTP 500 in the source.
- The `project` page (lines 16-32) and the members JSON view are modelled only
  through `ProjectStore.Store.Members`. `project_by_handle` (lines 34-44) and
  `project_repos` (lines 344-346) are not modelled. The GET forms
  `project_new` and `project_join` only render templates and are not modelled.
  Neither is `project_members`, which only redirects.
- Ids are `i32` in the source. The model uses unbounded integers and does not
  model overflow of the id counter.
- User columns other than id and tier are folded into `name`.
- `ProjectStore.Store.EditForm` returns only the access outcome, not the
  project and the list of all users, because those only feed the template.
- Each handler is one atomic step of the store. In the source its statements
  run without a transaction: `project_new_post` inserts the row and only then
  looks up the name (lines 72-80), and `project_delete` runs two separate
  deletes (lines 166-172). Interleavings of concurrent requests, such as two
  creations of the same new name, are not modelled.
- Ids come from a counter that never hands out an id twice. SQLite may reuse
  the largest id after that row is deleted; the model does not.
