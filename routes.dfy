/** The note-tree routes of the current application: every read and write is
    scoped to the calling user, a note may only be placed under a folder the
    caller owns, and deleting a folder deletes everything below it. */
module Routes {
  import opened Outcomes
  import opened Models
  import Forest
  import Query

  /** Note `id` exists and belongs to `caller`. */
  predicate Owned(notes: map<int, Note>, caller: int, id: int)
  {
    id in notes && notes[id].ownerId == Some(caller)
  }

  /** Every row is stored under its own id. */
  predicate KeysMatch(notes: map<int, Note>)
  {
    forall k :: k in notes ==> notes[k].id == k
  }

  /** The tree invariant the create and update guards keep: the truthy
      parent of every note is an existing folder with the same owner. */
  ghost predicate ParentsValid(notes: map<int, Note>)
  {
    forall k :: k in notes && Truthy(notes[k].parentId) ==>
      var p := notes[k].parentId.value;
      p in notes && notes[p].isFolder && notes[p].ownerId == notes[k].ownerId
  }

  /** The tree invariant at one note. */
  lemma ValidParent(notes: map<int, Note>, k: int)
    requires ParentsValid(notes) && k in notes && Truthy(notes[k].parentId)
    ensures notes[k].parentId.value in notes
    ensures notes[notes[k].parentId.value].isFolder
    ensures notes[notes[k].parentId.value].ownerId == notes[k].ownerId
  {
  }

  /** The owner-scoped lookup `filter(id == id, owner_id == caller).first()`. */
  function FindOwned(notes: map<int, Note>, caller: int, id: int): Option<Note>
  {
    if id in notes && notes[id].ownerId == Some(caller) then Some(notes[id]) else None
  }

  /** A note of another user is indistinguishable from a missing one: the
      lookup gives the same answer as on a store without that note. */
  lemma ForeignLooksMissing(notes: map<int, Note>, caller: int, id: int)
    requires id in notes && notes[id].ownerId != Some(caller)
    ensures FindOwned(notes, caller, id) == FindOwned(notes - {id}, caller, id) == None
  {
  }

  /** The parent guard of create and update: a truthy parent id must name a
      folder the caller owns. */
  function CheckParent(notes: map<int, Note>, caller: int, parentId: Option<int>): (r: Option<Error>)
    ensures r == None <==>
              !Truthy(parentId) || (Owned(notes, caller, parentId.value) && notes[parentId.value].isFolder)
    ensures r == Some(NotFound("Parent note not found")) <==>
              Truthy(parentId) && !Owned(notes, caller, parentId.value)
    ensures r == Some(InvalidOperation("Parent must be a folder")) <==>
              Truthy(parentId) && Owned(notes, caller, parentId.value) && !notes[parentId.value].isFolder
  {
    if !Truthy(parentId) then None
    else match FindOwned(notes, caller, parentId.value)
      case None => Some(NotFound("Parent note not found"))
      case Some(parent) => if !parent.isFolder then Some(InvalidOperation("Parent must be a folder")) else None
  }

  /** Writing a row that passes the parent guard, keeps any folder flag and
      owner it replaces, and belongs to the caller keeps the tree invariant. */
  lemma PlaceKeepsParentsValid(notes: map<int, Note>, caller: int, n: Note)
    requires ParentsValid(notes)
    requires n.ownerId == Some(caller) && CheckParent(notes, caller, n.parentId) == None
    requires n.id in notes ==> notes[n.id].isFolder == n.isFolder && notes[n.id].ownerId == n.ownerId
    ensures ParentsValid(notes[n.id := n])
  {
    var m := notes[n.id := n];
    forall k | k in m && Truthy(m[k].parentId)
      ensures var p := m[k].parentId.value; p in m && m[p].isFolder && m[p].ownerId == m[k].ownerId
    {
      if k != n.id {
        assert Truthy(notes[k].parentId);
      }
    }
  }

  /** An update of the caller's note that passes the parent guard, or sends
      no parent, keeps the tree invariant. */
  lemma PatchKeepsParentsValid(notes: map<int, Note>, caller: int, id: int, u: NoteUpdate)
    requires ParentsValid(notes) && KeysMatch(notes) && Owned(notes, caller, id)
    requires u.parentId.Unset? || CheckParent(notes, caller, u.parentId.value) == None
    ensures ParentsValid(notes[id := Patched(notes[id], u)])
  {
    var n := Patched(notes[id], u);
    if u.parentId.Unset? && Truthy(n.parentId) {
      ValidParent(notes, id);
    }
    PlaceKeepsParentsValid(notes, caller, n);
  }

  /** With positive ids, the tree invariant means only folders have
      children. */
  lemma ParentsAreFolders(notes: map<int, Note>)
    requires ParentsValid(notes) && forall k :: k in notes ==> k > 0
    ensures Forest.FoldersOnly(Links(notes))
  {
    var t := Links(notes);
    forall c | c in t && t[c].parent.Some? && t[c].parent.value in t
      ensures t[t[c].parent.value].isFolder
    {
      assert Truthy(notes[c].parentId);
    }
  }

  /** With positive ids, everything below a note has that note's owner, so
      deleting a folder never reaches into another user's notes. */
  lemma {:induction false} SameOwnerAlongPath(notes: map<int, Note>, path: seq<int>)
    requires ParentsValid(notes) && forall k :: k in notes ==> k > 0
    requires Forest.IsPath(Links(notes), path) && path[|path| - 1] in notes
    ensures notes[path[0]].ownerId == notes[path[|path| - 1]].ownerId
    decreases |path|
  {
    var t := Links(notes);
    assert path[0] in t && t[path[0]].parent == Some(path[1]);
    if |path| > 2 {
      var rest := path[1..];
      assert Forest.IsPath(t, rest) by {
        forall i | 0 <= i < |rest| - 1 ensures rest[i] in t && t[rest[i]].parent == Some(rest[i + 1]) {
          assert rest[i] == path[i + 1] && rest[i + 1] == path[i + 2];
        }
      }
      SameOwnerAlongPath(notes, rest);
      assert rest[0] == path[1] && rest[|rest| - 1] == path[|path| - 1];
    }
    assert path[1] in notes && notes[path[0]].parentId == Some(path[1]);
    ValidParent(notes, path[0]);
  }

  /** Every note in the subtree of `a` has the owner of `a`. */
  lemma SubtreeSameOwner(notes: map<int, Note>, a: int, d: int)
    requires ParentsValid(notes) && forall k :: k in notes ==> k > 0
    requires a in notes && d in Forest.Subtree(Links(notes), a)
    ensures notes[d].ownerId == notes[a].ownerId
  {
    if d != a {
      var path :| Forest.IsPath(Links(notes), path) && path[0] == d && path[|path| - 1] == a;
      SameOwnerAlongPath(notes, path);
    }
  }

  /** Removing a whole subtree keeps the tree invariant: no remaining note
      had its parent inside it. */
  lemma RemoveSubtreeKeepsParentsValid(notes: map<int, Note>, a: int)
    requires ParentsValid(notes)
    ensures ParentsValid(notes - Forest.Subtree(Links(notes), a))
  {
    var t := Links(notes);
    var s := Forest.Subtree(t, a);
    var m := notes - s;
    forall k | k in m && Truthy(m[k].parentId)
      ensures var p := m[k].parentId.value; p in m && m[p].isFolder && m[p].ownerId == m[k].ownerId
    {
      var p := m[k].parentId.value;
      assert Truthy(notes[k].parentId);
      if p in s {
        Forest.SubtreeClosed(t, a, p, k);
      }
    }
  }

  /** Inserting a row under a fresh positive id that passes the parent guard
      keeps the parent links free of cycles: no row can point at an id that
      does not exist yet. */
  lemma CreateKeepsAcyclic(notes: map<int, Note>, caller: int, n: Note)
    requires ParentsValid(notes) && Forest.Acyclic(Links(notes))
    requires n.id > 0 && n.id !in notes && CheckParent(notes, caller, n.parentId) == None
    ensures Forest.Acyclic(Links(notes[n.id := n]))
  {
    var t := Links(notes);
    var h: map<int, nat> :| t.Keys <= h.Keys && Forest.Ranked(t, h);
    forall c | c in t ensures t[c].parent != Some(n.id) {
      if t[c].parent == Some(n.id) {
        assert Truthy(notes[c].parentId);
      }
    }
    assert Links(notes[n.id := n]) == t[n.id := Forest.Link(n.parentId, n.isFolder)];
    Forest.AddLeafKeepsAcyclic(t, h, n.id, Forest.Link(n.parentId, n.isFolder));
  }

  /** Rewriting note `id` with the same folder flag keeps the parent links
      free of cycles when its parent is unchanged or lies outside its own
      subtree. */
  lemma PatchKeepsAcyclic(notes: map<int, Note>, id: int, n: Note)
    requires Forest.Acyclic(Links(notes)) && id in notes && n.isFolder == notes[id].isFolder
    requires n.parentId == notes[id].parentId
             || (n.parentId.Some? && n.parentId.value in notes ==> n.parentId.value !in Forest.Subtree(Links(notes), id))
    ensures Forest.Acyclic(Links(notes[id := n]))
  {
    var t := Links(notes);
    assert Links(notes[id := n]) == t[id := Forest.Link(n.parentId, n.isFolder)];
    if n.parentId == notes[id].parentId {
      assert t[id := Forest.Link(n.parentId, n.isFolder)] == t;
    } else {
      var h: map<int, nat> :| t.Keys <= h.Keys && Forest.Ranked(t, h);
      Forest.ReparentKeepsAcyclic(t, h, id, n.parentId);
    }
  }

  /** The update route accepts a note as its own parent: with one folder
      `1` of user `7`, moving `1` under `1` passes every check and leaves a
      cycle of parent links, on which the recursive delete fails at Python's
      recursion limit. */
  lemma UpdateCanCloseCycle()
    ensures var notes := map[1 := Note(1, "a", Some(""), true, None, None, Some(7))];
            var u := NoteUpdate(Unset, Unset, Set(Some(1)), Unset);
            && ParentsValid(notes) && Owned(notes, 7, 1) && CheckParent(notes, 7, u.parentId.value) == None
            && !Forest.Acyclic(Links(notes[1 := Patched(notes[1], u)]))
  {
    var notes := map[1 := Note(1, "a", Some(""), true, None, None, Some(7))];
    var u := NoteUpdate(Unset, Unset, Set(Some(1)), Unset);
    var after := notes[1 := Patched(notes[1], u)];
    assert Links(after)[1] == Forest.Link(Some(1), true);
    Forest.SelfParentIsCycle(Links(after), 1);
  }

  /** Another user's cycle does not block a delete: with folder `1` of user
      `7` at the root and folder `2` of user `8` made its own parent through
      the update route, the table has a cycle, yet folder `1` lies on none,
      so `DeleteNote(7, 1)` may be called. */
  lemma CycleElsewhereKeepsDelete()
    ensures var notes := map[1 := Note(1, "a", Some(""), true, None, None, Some(7)),
                             2 := Note(2, "b", Some(""), true, Some(2), None, Some(8))];
            && KeysMatch(notes) && ParentsValid(notes) && Owned(notes, 7, 1) && notes[1].isFolder
            && !Forest.Acyclic(Links(notes)) && !Forest.Descends(Links(notes), 1, 1)
  {
    var notes := map[1 := Note(1, "a", Some(""), true, None, None, Some(7)),
                     2 := Note(2, "b", Some(""), true, Some(2), None, Some(8))];
    var t := Links(notes);
    assert t[2] == Forest.Link(Some(2), true);
    Forest.SelfParentIsCycle(t, 2);
    forall path | Forest.IsPath(t, path) ensures path[0] != 1 {
      assert path[0] in t && t[path[0]].parent == Some(path[1]);
    }
  }

  /** A create request that gives only a title always passes the parent
      guard, so the create route always succeeds on it. The row it inserts
      is a root note of the caller (one the root listing returns), not a
      folder, with empty content and no cover image, and inserting it under
      a fresh id keeps the tree invariant and the absence of cycles. */
  lemma CreateDefaultsMakesRoot(notes: map<int, Note>, caller: int, title: string, id: int)
    ensures CheckParent(notes, caller, CreateWithDefaults(title).parentId) == None
    ensures var n := NewRow(id, CreateWithDefaults(title), caller);
              && n.id == id && n.title == title && n.content == Some("") && !n.isFolder
              && n.parentId.None? && n.coverImage.None? && n.ownerId == Some(caller)
              && (ParentsValid(notes) && id !in notes ==> ParentsValid(notes[id := n]))
              && (ParentsValid(notes) && 0 < id && id !in notes && Forest.Acyclic(Links(notes)) ==>
                    Forest.Acyclic(Links(notes[id := n])))
  {
    var n := NewRow(id, CreateWithDefaults(title), caller);
    if ParentsValid(notes) && id !in notes {
      PlaceKeepsParentsValid(notes, caller, n);
      if 0 < id && Forest.Acyclic(Links(notes)) {
        CreateKeepsAcyclic(notes, caller, n);
      }
    }
  }

  /** The rows left after removing some keep their ids and links. */
  lemma RowsLeft(start: map<int, Note>, s: set<int>)
    requires KeysMatch(start)
    ensures KeysMatch(start - s) && Links(start - s) == Links(start) - s
  {
    LinksMinus(start, s);
  }

  /** The rows a filtered scan returns are rows of the table, stored under
      their own ids, kept by the filter, each once. */
  lemma Fetched(notes: map<int, Note>, keep: Note -> bool, r: seq<Note>, ids: seq<int>)
    requires KeysMatch(notes) && |r| == |ids|
    requires forall i :: 0 <= i < |ids| ==> ids[i] in notes && r[i] == notes[ids[i]] && keep(r[i])
    requires forall i, j :: 0 <= i < j < |ids| ==> ids[i] != ids[j]
    ensures forall n :: n in r ==> n.id in notes && notes[n.id] == n && keep(n)
    ensures forall i, j :: 0 <= i < j < |r| ==> r[i].id != r[j].id
  {
    forall n | n in r ensures n.id in notes && notes[n.id] == n && keep(n) {
      var i :| 0 <= i < |r| && r[i] == n;
    }
  }

  /** Before the delete loop handles the `i`-th child `ids[i]` of `p`, the
      rows left still hold it, stored under their own ids, ranked, and with
      everything below it as at the start. */
  lemma TurnReady(start: map<int, Note>, t: Forest.Table, h: map<int, nat>, p: int, ids: seq<int>, i: int)
    requires KeysMatch(start) && t == Links(start) && Forest.Ranked(t, h) && p in t && p in h && 0 <= i < |ids|
    requires forall j :: 0 <= j < |ids| ==> ids[j] in Forest.Kids(t, p)
    requires forall j, k :: 0 <= j < k < |ids| ==> ids[j] != ids[k]
    ensures forall j :: 0 <= j < i ==> ids[..i][j] in t && ids[..i][j] in h
    ensures var rest := start - Forest.SweptInOrder(t, h, ids[..i]);
              && KeysMatch(rest) && ids[i] in rest && ids[i] in h && h[ids[i]] < h[p] && Forest.Ranked(Links(rest), h)
              && Forest.Cascade(Links(rest), h, ids[i]) == Forest.Cascade(t, h, ids[i])
  {
    Forest.ChildStillPresent(t, h, p, ids, i);
    RowsLeft(start, Forest.SweptInOrder(t, h, ids[..i]));
  }

  /** The rows the children query returns are the children of `p`, each
      once, stored under their own ids. */
  lemma FetchedChildren(start: map<int, Note>, p: int, children: seq<Note>, ids: seq<int>)
    requires KeysMatch(start) && |children| == |ids|
    requires forall i :: 0 <= i < |ids| ==>
               ids[i] in start && children[i] == start[ids[i]] && children[i].parentId == Some(p)
    requires forall k :: k in start && start[k].parentId == Some(p) ==> start[k] in children
    ensures forall i :: 0 <= i < |ids| ==> children[i].id == ids[i] && ids[i] in Forest.Kids(Links(start), p)
    ensures forall k :: k in Forest.Kids(Links(start), p) <==> k in ids
  {
    forall k | k in Forest.Kids(Links(start), p) ensures k in ids {
      assert start[k] in children;
      var j :| 0 <= j < |children| && children[j] == start[k];
      assert ids[j] == k;
    }
  }

  /** The search filter: the query, wrapped in `%`, matches the title or the
      content with `ilike`. */
  predicate Matches(n: Note, q: string)
  {
    Query.Ilike(n.title, "%" + q + "%")
    || (n.content.Some? && Query.Ilike(n.content.value, "%" + q + "%"))
  }

  /** For a query without wildcard characters, a note matches exactly when
      its title or its content contains the query, ignoring case. */
  lemma MatchesIsSubstring(n: Note, q: string)
    requires Query.Literal(q)
    ensures Matches(n, q) <==>
              Query.ContainsCI(n.title, q) || (n.content.Some? && Query.ContainsCI(n.content.value, q))
  {
    Query.IlikeIsSubstring(n.title, q);
    if n.content.Some? {
      Query.IlikeIsSubstring(n.content.value, q);
    }
  }

  /** The ids of the caller's notes the search filter keeps. */
  ghost function SearchHits(notes: map<int, Note>, caller: int, q: string): set<int>
  {
    set k | k in notes && notes[k].ownerId == Some(caller) && Matches(notes[k], q)
  }

  /** The search route's LIMIT. */
  const SearchLimit: nat := 10

  /** The table of notes, with the id the next insert receives. */
  class NoteStore {
    var notes: map<int, Note>
    var nextId: int

    /** Ids are positive and below the next id, every row is stored under its
        own id, and the tree invariant holds. */
    ghost predicate Valid()
      reads this
    {
      && 0 < nextId
      && (forall k :: k in notes ==> 0 < k < nextId)
      && KeysMatch(notes)
      && ParentsValid(notes)
    }

    constructor ()
      ensures Valid() && notes == map[] && nextId == 1
      ensures Forest.Acyclic(Links(notes))
    {
      notes := map[];
      nextId := 1;
      assert Forest.Ranked(Links(map[]), map[]);
    }

    /** `GET /notes/`: the caller's notes that have no parent. */
    method GetRootNotes(caller: int) returns (r: seq<Note>)
      requires Valid()
      ensures forall n :: n in r ==>
                n.id in notes && notes[n.id] == n && n.parentId.None? && n.ownerId == Some(caller)
      ensures forall k :: k in notes && notes[k].parentId.None? && notes[k].ownerId == Some(caller) ==>
                notes[k] in r
      ensures forall i, j :: 0 <= i < j < |r| ==> r[i].id != r[j].id
    {
      var keep := (n: Note) => n.parentId.None? && n.ownerId == Some(caller);
      ghost var ids;
      r, ids := Query.Select(notes, keep, None);
      Fetched(notes, keep, r, ids);
    }

    /** `GET /notes/{id}`: the note, when the caller owns it; a missing note
        and another user's note give the same 404. */
    method GetNote(caller: int, id: int) returns (r: Result<Note>)
      ensures r.Ok? <==> Owned(notes, caller, id)
      ensures r.Ok? ==> r.value == notes[id]
      ensures r.Err? ==> r.error == NotFound("Note not found")
    {
      var found := FindOwned(notes, caller, id);
      if found.None? {
        return Err(NotFound("Note not found"));
      }
      r := Ok(found.value);
    }

    /** `GET /notes/{id}/children`: every note whose parent is the caller's
        folder `id`. */
    method GetNoteChildren(caller: int, id: int) returns (r: Result<seq<Note>>)
      requires Valid()
      ensures r == Err(NotFound("Parent note not found")) <==> !Owned(notes, caller, id)
      ensures r == Err(InvalidOperation("Note is not a folder")) <==>
                Owned(notes, caller, id) && !notes[id].isFolder
      ensures r.Ok? <==> Owned(notes, caller, id) && notes[id].isFolder
      ensures r.Ok? ==> forall n :: n in r.value ==>
                n.id in notes && notes[n.id] == n && n.parentId == Some(id)
      ensures r.Ok? ==> forall k :: k in notes && notes[k].parentId == Some(id) ==> notes[k] in r.value
      ensures r.Ok? ==> forall i, j :: 0 <= i < j < |r.value| ==> r.value[i].id != r.value[j].id
      ensures r.Ok? ==> forall n :: n in r.value ==> n.ownerId == Some(caller)
    {
      var parent := FindOwned(notes, caller, id);
      if parent.None? {
        return Err(NotFound("Parent note not found"));
      }
      if !parent.value.isFolder {
        return Err(InvalidOperation("Note is not a folder"));
      }
      var keep := (n: Note) => n.parentId == Some(id);
      var children;
      ghost var ids;
      children, ids := Query.Select(notes, keep, None);
      Fetched(notes, keep, children, ids);
      forall n | n in children ensures n.ownerId == Some(caller) {
        ValidParent(notes, n.id);
      }
      r := Ok(children);
    }

    /** `GET /notes/search?q=`: at most ten of the caller's notes whose
        title or content matches the query; all of them when there are no
        more than ten. */
    method SearchNotes(caller: int, q: string) returns (r: seq<Note>)
      requires Valid()
      ensures |r| <= SearchLimit
      ensures |r| == if |SearchHits(notes, caller, q)| < SearchLimit then |SearchHits(notes, caller, q)| else SearchLimit
      ensures forall n :: n in r ==>
                n.id in notes && notes[n.id] == n && n.ownerId == Some(caller) && Matches(n, q)
      ensures forall i, j :: 0 <= i < j < |r| ==> r[i].id != r[j].id
      ensures |SearchHits(notes, caller, q)| <= SearchLimit ==>
                forall k :: k in SearchHits(notes, caller, q) ==> notes[k] in r
    {
      var keep := (n: Note) => n.ownerId == Some(caller) && Matches(n, q);
      assert Query.Matching(notes, keep) == SearchHits(notes, caller, q);
      ghost var ids;
      r, ids := Query.Select(notes, keep, Some(SearchLimit));
      Fetched(notes, keep, r, ids);
    }

    /** `POST /notes/`: inserts the requested note for the caller under a
        fresh id, after the parent guard; nothing is inserted when the guard
        fails. */
    method CreateNote(caller: int, req: NoteCreate) returns (r: Result<Note>)
      requires Valid()
      modifies this
      ensures Valid()
      ensures r.Ok? <==> CheckParent(old(notes), caller, req.parentId) == None
      ensures r.Err? ==> Some(r.error) == CheckParent(old(notes), caller, req.parentId) && notes == old(notes)
      ensures r.Ok? ==> r.value == NewRow(r.value.id, req, caller) && r.value.id !in old(notes)
                        && notes == old(notes)[r.value.id := r.value]
      ensures r.Ok? ==> r.value.content.Some? && (req.content.Some? ==> r.value.content == req.content)
      ensures Forest.Acyclic(Links(old(notes))) ==> Forest.Acyclic(Links(notes))
    {
      var err := CheckParent(notes, caller, req.parentId);
      if err.Some? {
        return Err(err.value);
      }
      var row := NewRow(nextId, req, caller);
      PlaceKeepsParentsValid(notes, caller, row);
      if Forest.Acyclic(Links(notes)) {
        CreateKeepsAcyclic(notes, caller, row);
      }
      notes := notes[nextId := row];
      nextId := nextId + 1;
      r := Ok(row);
    }

    /** `PUT /notes/{id}`: applies the fields the client sent to the caller's
        note. A truthy new parent passes the parent guard first; an explicit
        null parent moves the note to the root unchecked. */
    method UpdateNote(caller: int, id: int, u: NoteUpdate) returns (r: Result<Note>)
      requires Valid()
      modifies this`notes
      ensures Valid()
      ensures !Owned(old(notes), caller, id) ==> r == Err(NotFound("Note not found")) && notes == old(notes)
      ensures Owned(old(notes), caller, id) && u.parentId.Set? && CheckParent(old(notes), caller, u.parentId.value).Some? ==>
                r == Err(CheckParent(old(notes), caller, u.parentId.value).value) && notes == old(notes)
      ensures Owned(old(notes), caller, id) && (u.parentId.Unset? || CheckParent(old(notes), caller, u.parentId.value).None?) ==>
                r == Ok(Patched(old(notes)[id], u)) && notes == old(notes)[id := r.value]
      ensures r.Ok? ==> r.value.id == id && r.value.isFolder == old(notes)[id].isFolder && r.value.ownerId == Some(caller)
    {
      var found := FindOwned(notes, caller, id);
      if found.None? {
        return Err(NotFound("Note not found"));
      }
      if u.parentId.Set? {
        var err := CheckParent(notes, caller, u.parentId.value);
        if err.Some? {
          return Err(err.value);
        }
      }
      var note := SetAttributes(found.value, UpdateData(u));
      UpdateLoopIsPatch(found.value, u);
      PatchKeepsParentsValid(notes, caller, id, u);
      notes := notes[id := note];
      r := Ok(note);
    }

    /** The ancestor walk the update route leaves out: follows parent links
        up from `p` and tells whether it meets `id`, that is whether `p` lies
        in the subtree of `id`. The links must have no cycle for the walk to
        end. */
    method InSubtree(id: int, p: int) returns (b: bool)
      requires id in notes && Forest.Acyclic(Links(notes))
      ensures b <==> p in Forest.Subtree(Links(notes), id)
    {
      ghost var t := Links(notes);
      ghost var h: map<int, nat> :| t.Keys <= h.Keys && Forest.Ranked(t, h);
      ghost var seen: set<int> := {};
      var cur := p;
      while cur != id && cur in notes && notes[cur].parentId.Some?
        invariant p in Forest.Subtree(t, id) <==> cur in Forest.Subtree(t, id)
        invariant seen <= t.Keys
        invariant cur in t ==> cur !in seen && forall v :: v in seen ==> h[v] < h[cur]
        decreases t.Keys - seen
      {
        Forest.StepUp(t, id, cur);
        var next := notes[cur].parentId.value;
        if next in t {
          Forest.ParentOutranks(t, h, cur);
        }
        seen := seen + {cur};
        cur := next;
      }
      if cur != id && cur in notes {
        Forest.StepUp(t, id, cur);
      }
      b := cur == id;
    }

    /** The update route with the cycle check it lacks: a truthy new parent
        must also lie outside the note's own subtree. It keeps the parent
        links free of cycles, so the recursive delete always ends. */
    method UpdateNoteChecked(caller: int, id: int, u: NoteUpdate) returns (r: Result<Note>)
      requires Valid() && Forest.Acyclic(Links(notes))
      modifies this`notes
      ensures Valid() && Forest.Acyclic(Links(notes))
      ensures !Owned(old(notes), caller, id) ==> r == Err(NotFound("Note not found")) && notes == old(notes)
      ensures Owned(old(notes), caller, id) && u.parentId.Set? && CheckParent(old(notes), caller, u.parentId.value).Some? ==>
                r == Err(CheckParent(old(notes), caller, u.parentId.value).value) && notes == old(notes)
      ensures Owned(old(notes), caller, id) && u.parentId.Set? && CheckParent(old(notes), caller, u.parentId.value).None?
              && Truthy(u.parentId.value) && u.parentId.value.value in Forest.Subtree(Links(old(notes)), id) ==>
                r == Err(InvalidOperation("Cannot move a note under itself")) && notes == old(notes)
      ensures Owned(old(notes), caller, id)
              && (u.parentId.Unset?
                  || (CheckParent(old(notes), caller, u.parentId.value).None?
                      && (Truthy(u.parentId.value) ==> u.parentId.value.value !in Forest.Subtree(Links(old(notes)), id)))) ==>
                r == Ok(Patched(old(notes)[id], u)) && notes == old(notes)[id := r.value]
    {
      var found := FindOwned(notes, caller, id);
      if found.None? {
        return Err(NotFound("Note not found"));
      }
      if u.parentId.Set? {
        var err := CheckParent(notes, caller, u.parentId.value);
        if err.Some? {
          return Err(err.value);
        }
        if Truthy(u.parentId.value) {
          var cycle := InSubtree(id, u.parentId.value.value);
          if cycle {
            return Err(InvalidOperation("Cannot move a note under itself"));
          }
        }
      }
      var note := SetAttributes(found.value, UpdateData(u));
      UpdateLoopIsPatch(found.value, u);
      AssignKeepsIdentity(found.value, UpdateData(u));
      PatchKeepsParentsValid(notes, caller, id, u);
      PatchKeepsAcyclic(notes, id, note);
      notes := notes[id := note];
      r := Ok(note);
    }

    /** `delete_children_recursive`: deletes every child of `parent`, first
        emptying each child that is a folder. The rank map `h` ranks the
        rows below `parent`, which is possible exactly when `parent` lies on
        no cycle of parent links (`Forest.GroundedIffNotOnCycle`); cycles
        elsewhere in the table do not matter. Only folders have children, as
        in every store the routes keep: the `children` relationship has no
        delete cascade, so deleting a non-folder that has children would set
        their parent to null instead. The method removes exactly the notes
        below `parent`. */
    method DeleteChildrenRecursive(parent: int, ghost h: map<int, nat>)
      requires KeysMatch(notes) && parent in notes && parent in h && Forest.Ranked(Links(notes), h)
      requires Forest.FoldersOnly(Links(notes))
      modifies this`notes
      ensures notes == old(notes) - Forest.Cascade(Links(old(notes)), h, parent)
      decreases h[parent]
    {
      ghost var t := Links(notes);
      ghost var start := notes;
      var children;
      ghost var ids;
      children, ids := Query.Select(notes, (n: Note) => n.parentId == Some(parent), None);
      ghost var kids := Forest.Kids(t, parent);
      FetchedChildren(start, parent, children, ids);
      var i := 0;
      while i < |children|
        invariant 0 <= i <= |children|
        invariant notes == start - Forest.SweptInOrder(t, h, ids[..i])
      {
        var child := children[i];
        TurnReady(start, t, h, parent, ids, i);
        if child.isFolder {
          DeleteChildrenRecursive(child.id, h);
        }
        Forest.SweepStep(start, t, h, ids, i, notes);
        notes := notes - {child.id};
        i := i + 1;
      }
      assert ids[..i] == ids;
      Forest.SweptInOrderIsSwept(t, h, ids, kids);
      Forest.CascadeIsSwept(t, h, parent);
    }

    /** `DELETE /notes/{id}`: deletes the caller's note and, when it is a
        folder, everything below it. A folder to delete must not lie on a
        cycle of parent links: on one, the recursive delete calls itself
        until Python's recursion limit, and the request fails with nothing
        deleted. */
    method DeleteNote(caller: int, id: int) returns (r: Result<string>)
      requires Valid()
      requires Owned(notes, caller, id) && notes[id].isFolder ==> !Forest.Descends(Links(notes), id, id)
      modifies this`notes
      ensures Valid()
      ensures r.Ok? <==> Owned(old(notes), caller, id)
      ensures r.Err? ==> r.error == NotFound("Note not found") && notes == old(notes)
      ensures r.Ok? ==> r.value == "Note deleted successfully"
                        && notes == old(notes) - Forest.Subtree(Links(old(notes)), id)
      ensures r.Ok? ==> forall k :: k in old(notes) && k !in notes ==> old(notes)[k].ownerId == Some(caller)
      ensures Forest.Acyclic(Links(old(notes))) ==> Forest.Acyclic(Links(notes))
    {
      var found := FindOwned(notes, caller, id);
      if found.None? {
        return Err(NotFound("Note not found"));
      }
      ghost var start := notes;
      ghost var t := Links(notes);
      ParentsAreFolders(notes);
      if found.value.isFolder {
        Forest.GroundedIffNotOnCycle(t, id);
        ghost var h: map<int, nat> :| id in h && Forest.Ranked(t, h);
        DeleteChildrenRecursive(id, h);
        Forest.FolderRemoved(start, t, h, id);
      } else {
        Forest.LeafRemoved(start, t, id);
      }
      notes := notes - {id};
      RemoveSubtreeKeepsParentsValid(start, id);
      if Forest.Acyclic(t) {
        LinksMinus(start, Forest.Subtree(t, id));
        Forest.RemoveKeepsAcyclic(t, Forest.Subtree(t, id));
      }
      forall k | k in start && k !in notes ensures start[k].ownerId == Some(caller) {
        SubtreeSameOwner(start, id, k);
      }
      r := Ok("Note deleted successfully");
    }
  }
}
