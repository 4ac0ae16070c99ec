# Note tree of the ANCText notes API, in Dafny

The notes API stores notes and folders in one self-referential `notes`
table. Each row has an id, a title, optional content, a folder flag, an
optional `parent_id` naming another row and, in the current application, an
optional owner and cover image. A small set of HTTP routes works on this
table:

- list the roots;
- get a note;
- list a folder's children;
- search (at most ten hits);
- create a note;
- partially update a note;
- delete a note, which for a folder deletes everything below it through a
  recursive helper.

The repository holds two copies of these routes:

- `app/`, the current one, scopes every query to the calling user.
- `backend/app/`, an earlier one, has no owners and no search.

The settings module also turns the `ALLOWED_ORIGINS` string into the CORS
origin list.

This project models:

- both copies of the routes;
- the entity and request shapes they use;
- the origin-list parser.

## Modules

- **Outcomes**
  - Option.
  - `Field`: `Unset`, or `Set(v)`, which keeps "not sent" apart from an
    explicit null.
  - The two route errors (404 and 400).
  - `Truthy`: Python's truthiness of an optional id. `None` and `0` both skip
    the parent guard.
- **Forest**
  - The parent links of the table.
  - Acyclicity, stated as the existence of a rank map that puts every parent
    above its children.
  - `Cascade`: the rows the recursive delete visits.
  - `Subtree`: the rows from which parent links climb to a given row.
  - Proofs that the two coincide, and lemmas on keeping the links free of
    cycles.
- **Query**
  - `Select`: the table scan behind `query(...).filter(...).limit(n).all()`,
    written as a loop over the keys.
  - SQL's `ILIKE` pattern match. `%` and `_` are wildcards, case is compared
    ASCII-only, and there is no escape character.
- **Models** (`app/models.py`, `app/schemas.py`)
  - The `Note` row, the create request with its defaults and the update
    request.
  - `model_dump(exclude_unset=True)` as a list of assignments.
  - The `setattr` loop as a method, proved equal to the patch it means.
- **LegacyModels**: the same for `backend/app/`, without owner and cover
  image.
- **Routes** (`app/routes.py`)
  - A `NoteStore` class holding the table as a `map<int, Note>` and the next
    id.
  - One method per route, plus `delete_children_recursive`. The caller's user
    id is a parameter.
  - The class invariant `Valid()`:
    - ids are positive;
    - each row is stored under its own id;
    - every truthy parent is an existing folder with the same owner.
- **LegacyRoutes** (`backend/app/routes.py`): the same store and routes,
  without owners and without search.
- **Config** (`app/config.py`): `parsed_origins`, with Python's
  `split(",")`, `strip()` and the blank-piece filter.

## How the code differs from its stated intent

The model follows the code in each of these cases:

- **No cycle check on update.** The tree is meant to be acyclic, but the
  update route never checks for cycles. A folder can be moved under itself or
  under one of its own descendants. Deleting such a folder afterwards recurses
  until Python's recursion limit. The request then fails with `RecursionError`,
  which the global exception handler (app/main.py:41-47) answers with a 500,
  and nothing is committed. The model's delete of a folder requires that the
  folder lies on no cycle of parent links. Those are exactly the inputs on
  which the recursion ends (`Forest.GroundedIffNotOnCycle`). Cycles elsewhere
  in the table do not matter. The gap is recorded under Findings.
- **Falsy parent ids skip the guard.** The parent guard is a truthiness test,
  so a `parent_id` of `0` skips validation just as a missing one does.
- **The children query is not owner-filtered.** The query only filters by
  `parent_id == id`. `Routes.NoteStore.GetNoteChildren` proves that every
  child it returns still belongs to the caller, from the invariant that
  create and update keep.
- **The search query is not escaped.** `q` goes into the pattern unescaped,
  so `%` and `_` in it act as wildcards. The search is a plain substring
  search only for queries without them.

## Model

| member | source | states |
|---|---|---|
| Routes.CreateDefaultsMakesRoot | app/schemas.py:27-35 | A create request that gives only a title (content `""`, not a folder, no parent, no cover image) always passes the parent guard. The create route inserts it as a root note of the caller, one the root listing returns, and under a fresh id this keeps the invariant and acyclicity |
| Models.SetAttributes | app/routes.py:98-99 | The `setattr` loop applies the sent fields to the note one after another, in order |
| Models.UpdateLoopIsPatch | app/routes.py:85-99 | Applying the sent fields is the partial update: each sent field takes the sent value, an explicit null included, and each unsent field keeps its old value |
| Models.AssignKeepsIdentity | app/schemas.py:37-41 | No update changes a note's id, folder flag or owner, because the update request has no field for them |
| LegacyRoutes.CreateDefaultsMakesRoot | backend/app/schemas.py:5-12 | A create request that gives only a title (content `""`, not a folder, no parent) always passes the parent guard. The create route inserts it as a root note, and under a fresh id this keeps the invariant and acyclicity |
| LegacyModels.SetAttributes | backend/app/routes.py:71-72 | The `setattr` loop applies the sent fields in order |
| LegacyModels.UpdateLoopIsPatch | backend/app/routes.py:61-72 | Sent fields take the sent value and unsent fields keep their old value |
| LegacyModels.AssignKeepsIdentity | backend/app/schemas.py:14-17 | No update changes a note's id or folder flag |
| Query.Select | app/routes.py:48-51 | A filtered scan returns only rows the filter keeps, each row once. It returns `min(limit, matches)` rows, and every matching row when there are no more than the limit |
| Query.IlikeIsSubstring | app/routes.py:50 | For a query without `%` or `_`, `ilike('%' + q + '%')` holds exactly when the text contains `q`, ignoring ASCII case |
| Query.LiteralThenPercent | app/routes.py:50 | For a query without wildcards, `ilike(q + '%')` holds exactly when the text starts with `q`, ignoring ASCII case |
| Query.UnderscoreIsWildcard | app/routes.py:50 | The unescaped query `a_c` matches the text `abc`, which does not contain `a_c` |
| Forest.RegionIsSubtree | app/routes.py:123-129 | When only folders have children, a folder plus the rows the recursive delete reaches from it is exactly the set of rows whose parent links lead up to the folder |
| Forest.RankGrowsAlongPath | app/routes.py:123-129 | With ranked links, no chain of parent links returns to its starting row. This is the termination measure of the recursion |
| Forest.GroundedIffNotOnCycle | app/routes.py:123-129 | A rank map covering a row, which bounds the depth of the recursion started there, exists exactly when the row lies on no cycle of parent links |
| Forest.AcyclicNotOnCycle | app/routes.py:123-129 | When the whole table is free of cycles, no row lies on a cycle, so deleting any folder ends |
| Routes.ForeignLooksMissing | app/routes.py:21-26 | Another user's note gives the same lookup result as a missing note |
| Routes.CheckParent | app/routes.py:58-66 | The parent guard passes exactly when the parent id is falsy or names a folder the caller owns. It gives 404 "Parent note not found" exactly when a truthy id is missing or foreign, and 400 "Parent must be a folder" exactly when it names the caller's non-folder |
| Routes.PlaceKeepsParentsValid | app/routes.py:58-68 | Writing a caller-owned row that passes the parent guard keeps "every truthy parent is an existing folder of the same owner" |
| Routes.PatchKeepsParentsValid | app/routes.py:88-99 | An update that passes the guard, or sends no parent, keeps that invariant. An explicit null parent keeps it too |
| Routes.SubtreeSameOwner | app/routes.py:115-117 | Every note below a note has that note's owner, so the recursive delete removes only the caller's notes |
| Routes.RemoveSubtreeKeepsParentsValid | app/routes.py:116-119 | Removing a whole subtree leaves no remaining note without its parent |
| Routes.FetchedChildren | app/routes.py:125 | The children query returns exactly the rows whose parent is the folder. These are the `children` backref of app/models.py:32, each returned once under its own id |
| Routes.MatchesIsSubstring | app/routes.py:48-51 | For a query without wildcards, a note matches exactly when its title or its content contains the query, ignoring case |
| Routes.CreateKeepsAcyclic | app/routes.py:58-68 | Inserting a row under a fresh id that passes the guard never creates a cycle of parent links |
| Routes.PatchKeepsAcyclic | app/routes.py:88-99 | Rewriting a note keeps the links acyclic when its parent is unchanged or lies outside its own subtree |
| Routes.UpdateCanCloseCycle | app/routes.py:88-99 | A folder `1` of user `7` moved under `1` passes every check of the update route, yet the result has a cycle |
| Routes.NoteStore.GetRootNotes | app/routes.py:10-16 | Returns exactly the caller's notes that have no parent, each once |
| Routes.NoteStore.GetNote | app/routes.py:19-27 | Succeeds exactly when the caller owns the id, returning that row. Otherwise it gives 404 "Note not found", for a missing and a foreign note alike |
| Routes.NoteStore.GetNoteChildren | app/routes.py:30-43 | Gives 404 exactly when the parent is missing or foreign and 400 exactly when it is not a folder. Otherwise it returns every note whose parent is the id, each once, all owned by the caller; an empty folder gives an empty list |
| Routes.NoteStore.SearchNotes | app/routes.py:46-52 | Returns at most 10 of the caller's notes whose title or content matches, each once. It returns `min(10, hits)` notes, and all of them when there are at most 10 |
| Routes.NoteStore.CreateNote | app/routes.py:55-72 | Succeeds exactly when the parent guard passes, and on failure returns the guard's error with the table unchanged. On success it inserts the request's fields, owned by the caller, under a fresh id; an explicit null content is stored as the column default `""` (app/models.py:23), so the stored content is never null and is the sent text when one is sent. It keeps the invariant and acyclicity |
| Routes.NoteStore.UpdateNote | app/routes.py:75-103 | Gives 404 with no change for a missing or foreign note and the guard's error with no change for a bad truthy parent. Otherwise it stores the patched note with id, folder flag and owner kept, and it keeps the invariant |
| Routes.NoteStore.InSubtree | app/routes.py:88-96 | Walking up the parent links from `p` meets `id` exactly when `p` is in the subtree of `id` |
| Routes.NoteStore.UpdateNoteChecked | app/routes.py:75-103 | The update route with a cycle check: it also rejects a truthy parent inside the note's own subtree with 400, and otherwise behaves as the update route. It keeps the links acyclic |
| Routes.NoteStore.DeleteChildrenRecursive | app/routes.py:123-129 | On a table where only folders have children, for a parent that lies on no cycle of parent links (given as a rank map covering it), removes exactly the rows the recursion reaches below the parent and nothing else |
| Routes.NoteStore.DeleteNote | app/routes.py:106-121 | Gives 404 with no change for a missing or foreign note. Otherwise, for a leaf or a folder on no cycle of parent links, it removes exactly the note's subtree (only the note, for a leaf) and reports "Note deleted successfully". Every removed note was the caller's. It keeps the invariant and acyclicity |
| Routes.CycleElsewhereKeepsDelete | app/routes.py:106-121 | A table with a cycle of another user's notes is not acyclic, yet deleting a folder of user `7` that lies on no cycle is allowed |
| LegacyRoutes.CheckParent | backend/app/routes.py:40-45 | The parent guard passes exactly when the parent id is falsy or names an existing folder. It gives 404 for a missing parent and 400 for a non-folder |
| LegacyRoutes.PlaceKeepsParentsValid | backend/app/routes.py:40-47 | Writing a row that passes the guard keeps "every truthy parent is an existing folder" |
| LegacyRoutes.PatchKeepsParentsValid | backend/app/routes.py:64-72 | An update that passes the guard, or sends no parent, keeps that invariant |
| LegacyRoutes.RemoveSubtreeKeepsParentsValid | backend/app/routes.py:86-89 | Removing a whole subtree leaves no remaining note without its parent |
| LegacyRoutes.FetchedChildren | backend/app/routes.py:95 | The children query returns exactly the rows whose parent is the folder, each once |
| LegacyRoutes.NoteStore.GetRootNotes | backend/app/routes.py:10-13 | Returns exactly the notes with no parent, with no owner filter, each once |
| LegacyRoutes.NoteStore.GetNote | backend/app/routes.py:16-21 | Gives 404 "Note not found" exactly when no note has the id, and otherwise that row |
| LegacyRoutes.NoteStore.GetNoteChildren | backend/app/routes.py:24-34 | Gives 404 for a missing parent and 400 for a non-folder. Otherwise it returns every note whose parent is the id, each once |
| LegacyRoutes.NoteStore.CreateNote | backend/app/routes.py:37-51 | Succeeds exactly when the parent guard passes, with nothing inserted on failure. On success it inserts the request's fields under a fresh id; an explicit null content is stored as the column default `""` (backend/app/models.py:11), so the stored content is never null. It keeps the invariant and acyclicity |
| LegacyRoutes.CreateKeepsAcyclic | backend/app/routes.py:40-47 | Inserting a row under a fresh id that passes the guard never creates a cycle of parent links |
| LegacyRoutes.NoteStore.UpdateNote | backend/app/routes.py:54-76 | Gives 404 or the guard's error with no change. Otherwise it stores the patched note with id and folder flag kept, and it keeps the invariant |
| LegacyRoutes.NoteStore.DeleteChildrenRecursive | backend/app/routes.py:93-99 | On a table where only folders have children, for a parent on no cycle of parent links, removes exactly the rows the recursion reaches below the parent |
| LegacyRoutes.NoteStore.DeleteNote | backend/app/routes.py:79-91 | Gives 404 with no change for a missing id. Otherwise, for a leaf or a folder on no cycle of parent links, it removes exactly the note's subtree, the note alone for a leaf. It keeps the invariant and acyclicity |
| Config.Strip | app/config.py:26 | `strip()` removes only whitespace, from both ends, and leaves a string that neither starts nor ends with whitespace |
| Config.Split | app/config.py:26 | `split(",")` gives at least one piece, and no piece holds a comma |
| Config.JoinSplit | app/config.py:26 | Joining the pieces of `split(",")` with commas gives the string back, so no character is lost or reordered |
| Config.SplitJoin | app/config.py:26 | Splitting comma-free pieces joined with commas gives the same pieces back |
| Config.CleanElements | app/config.py:26 | Every kept piece is stripped and not blank, and holds no comma when no input piece does |
| Config.ParsedOrigins | app/config.py:22-26 | Every origin in the list is non-empty, has no surrounding whitespace and holds no comma |
| Config.DefaultAllowsAll | app/config.py:20-25 | With the default `ALLOWED_ORIGINS` the list is `["*"]` |
| Config.ParsedOriginsAppend | app/config.py:26 | The origins of `a,b` are those of `a` followed by those of `b`, so the order is kept |
| Config.ParsedOriginsJoin | app/config.py:22-26 | Any non-empty list of clean origins, written comma-separated, parses back to itself |

## Findings

| source | as written | input that shows it | evidently intended | confidence | as-written member | corrected member |
|---|---|---|---|---|---|---|
| app/routes.py:88-96 | A new truthy parent is only checked to be an existing folder of the caller; it may be the note itself or one of its descendants | A table holding only folder `1` of user `7`, and user `7` sends `PUT /notes/1` with `{"parent_id": 1}`: the update is committed (the response itself most likely fails with a 500, since its nested `children` list is cyclic), note `1` becomes its own parent, and a later `DELETE /notes/1` recurses until Python's recursion limit and fails with `RecursionError`, answered 500 by the exception handler with nothing committed | Reject a parent that lies in the note's own subtree, so the parent links stay a forest and the recursive delete (app/routes.py:123-129) always ends | not executed | Routes.UpdateCanCloseCycle | Routes.NoteStore.UpdateNoteChecked |

The same gap is in `backend/app/routes.py:64-69`.

## Left out

- Routes.NoteStore.DeleteNote: requires that a folder being deleted lies on
  no cycle of parent links. Those are exactly the inputs on which the source
  recursion ends (`Forest.GroundedIffNotOnCycle`). On such a cycle the source
  fails at Python's recursion limit with a 500 and nothing deleted; the model
  does not describe that failure.
- Routes.NoteStore.DeleteChildrenRecursive: takes a rank map covering the
  parent as a ghost argument, which exists exactly when the parent lies on no
  cycle, for the same reason.
- LegacyRoutes.NoteStore.DeleteNote: requires that a folder being deleted lies
  on no cycle of parent links, for the same reason.
- LegacyRoutes.NoteStore.DeleteChildrenRecursive: takes a rank map covering
  the parent, for the same reason.
- Routes.NoteStore.DeleteChildrenRecursive: requires that only folders have
  children, as `Valid()` guarantees for every store the routes keep. The
  `children` backref (app/models.py:32) has no delete cascade, so on a table
  where a non-folder has children, deleting it sets those children's
  `parent_id` to null instead of keeping them. That orphaning is not modelled.
  The same holds for `LegacyRoutes.NoteStore.DeleteChildrenRecursive`.
- Routes.NoteStore.DeleteNote: the depth of the recursion is not bounded. A
  chain of folders nested deeper than Python's recursion limit (about 1000
  levels) fails in the source with `RecursionError`, a 500 and nothing
  deleted, while the model deletes it. The same holds for
  `LegacyRoutes.NoteStore.DeleteNote`.
- Routes.NoteStore.SearchNotes: when more than ten notes match, it does not
  say which ten are returned or in what order. The store chooses.
- Query.Select: the order of the returned rows is not stated. It is the
  store's scan order.
- Routes.NoteStore.UpdateNote: the title field of an update cannot be an
  explicit null. Storing a null title fails at the database (the `title`
  column is non-null), which is a storage error. The same holds for
  `LegacyRoutes.NoteStore.UpdateNote`.
- Query.Ilike: case is compared with ASCII lower-casing only, as SQLite's
  `lower()` does. Other collations are not modelled.
- Timestamps (`created_at`, `updated_at`): they read the clock and are not
  modelled.
- Response serialisation (`NoteResponse`, including its nested `children`
  list and that list's default of `[]`): the routes return rows, and turning
  them into JSON is not modelled.
- Column length limits (`String(255)` for the title, `String(500)` for the
  cover image): the default database is SQLite (app/config.py:7), which does
  not enforce them, and the model's unbounded strings do the same. On a
  database that does enforce them an over-long value fails at commit, and
  the model does not describe that failure.
- Id assignment: modelled as a counter that only grows. The database's own
  choice of the next primary key is not modelled.
- Ids are assumed positive, as the database's primary keys are.
- Users are reduced to the owner id. Authentication (`auth.get_current_user`)
  is not part of this model; the caller's id is a parameter of each route.
- Commit, refresh and transactions: each route is one atomic step on the
  table. Concurrency between requests is not modelled.
- The `/execute` code-running proxy (app/routes.py:131-149): an HTTP call to
  an external service.
- Route matching order. `/search` is declared after `/{note_id}`, which
  decides which handler a request reaches, and that dispatch is not modelled.
- Seed scripts and application wiring (`main.py`: CORS middleware, logging,
  the exception handler, table creation).
