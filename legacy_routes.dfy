/** The note-tree routes of the earlier, single-user copy of the
    application: the same tree rules as the current routes, with no owner
    scoping and no search. */
module LegacyRoutes {
  import opened Outcomes
  import opened LegacyModels
  import Forest
  import Query

  /** Every row is stored under its own id. */
  predicate KeysMatch(notes: map<int, Note>)
  {
    forall k :: k in notes ==> notes[k].id == k
  }

  /** The tree invariant the create and update guards keep: the truthy
      parent of every note is an existing folder. */
  ghost predicate ParentsValid(notes: map<int, Note>)
  {
    forall k :: k in notes && Truthy(notes[k].parentId) ==>
      notes[k].parentId.value in notes && notes[notes[k].parentId.value].isFolder
  }

  /** The tree invariant at one note. */
  lemma ValidParent(notes: map<int, Note>, k: int)
    requires ParentsValid(notes) && k in notes && Truthy(notes[k].parentId)
    ensures notes[k].parentId.value in notes && notes[notes[k].parentId.value].isFolder
  {
  }

  /** The lookup `filter(id == id).first()`. */
  function Find(notes: map<int, Note>, id: int): Option<Note>
  {
    if id in notes then Some(notes[id]) else None
  }

  /** The parent guard of create and update: a truthy parent id must name an
      existing folder. */
  function CheckParent(notes: map<int, Note>, parentId: Option<int>): (r: Option<Error>)
    ensures r == None <==> !Truthy(parentId) || (parentId.value in notes && notes[parentId.value].isFolder)
    ensures r == Some(NotFound("Parent note not found")) <==> Truthy(parentId) && parentId.value !in notes
    ensures r == Some(InvalidOperation("Parent must be a folder")) <==>
              Truthy(parentId) && parentId.value in notes && !notes[parentId.value].isFolder
  {
    if !Truthy(parentId) then None
    else match Find(notes, parentId.value)
      case None => Some(NotFound("Parent note not found"))
      case Some(parent) => if !parent.isFolder then Some(InvalidOperation("Parent must be a folder")) else None
  }

  /** Writing a row that passes the parent guard and keeps any folder flag it
      replaces keeps the tree invariant. */
  lemma PlaceKeepsParentsValid(notes: map<int, Note>, n: Note)
    requires ParentsValid(notes) && CheckParent(notes, n.parentId) == None
    requires n.id in notes ==> notes[n.id].isFolder == n.isFolder
    ensures ParentsValid(notes[n.id := n])
  {
    var m := notes[n.id := n];
    forall k | k in m && Truthy(m[k].parentId)
      ensures m[k].parentId.value in m && m[m[k].parentId.value].isFolder
    {
      if k != n.id {
        ValidParent(notes, k);
      }
    }
  }

  /** An update that passes the parent guard, or sends no parent, keeps the
      tree invariant. */
  lemma PatchKeepsParentsValid(notes: map<int, Note>, id: int, u: NoteUpdate)
    requires ParentsValid(notes) && KeysMatch(notes) && id in notes
    requires u.parentId.Unset? || CheckParent(notes, u.parentId.value) == None
    ensures ParentsValid(notes[id := Patched(notes[id], u)])
  {
    var n := Patched(notes[id], u);
    if u.parentId.Unset? && Truthy(n.parentId) {
      ValidParent(notes, id);
    }
    PlaceKeepsParentsValid(notes, n);
  }

  /** With positive ids, the tree invariant means only folders have
      children. */
  lemma ParentsAreFolders(notes: map<int, Note>)
    requires ParentsValid(notes) && forall k :: k in notes ==> k > 0
    ensures Forest.FoldersOnly(Links(notes))
  {
    var t := Links(notes);
    forall c | c in t && t[c].parent.Some? && t[c].parent.value in t
      ensures t[t[c].parent.value].isFolder
    {
      ValidParent(notes, c);
    }
  }

  /** Removing a whole subtree keeps the tree invariant: no remaining note
      had its parent inside it. */
  lemma RemoveSubtreeKeepsParentsValid(notes: map<int, Note>, a: int)
    requires ParentsValid(notes)
    ensures ParentsValid(notes - Forest.Subtree(Links(notes), a))
  {
    var t := Links(notes);
    var s := Forest.Subtree(t, a);
    var m := notes - s;
    forall k | k in m && Truthy(m[k].parentId)
      ensures m[k].parentId.value in m && m[m[k].parentId.value].isFolder
    {
      var p := m[k].parentId.value;
      ValidParent(notes, k);
      if p in s {
        Forest.SubtreeClosed(t, a, p, k);
      }
    }
  }

  /** Inserting a row under a fresh positive id that passes the parent guard
      keeps the parent links free of cycles: no row can point at an id that
      does not exist yet. */
  lemma CreateKeepsAcyclic(notes: map<int, Note>, n: Note)
    requires ParentsValid(notes) && Forest.Acyclic(Links(notes))
    requires n.id > 0 && n.id !in notes && CheckParent(notes, n.parentId) == None
    ensures Forest.Acyclic(Links(notes[n.id := n]))
  {
    var t := Links(notes);
    var h: map<int, nat> :| t.Keys <= h.Keys && Forest.Ranked(t, h);
    forall c | c in t ensures t[c].parent != Some(n.id) {
      if t[c].parent == Some(n.id) {
        ValidParent(notes, c);
      }
    }
    assert Links(notes[n.id := n]) == t[n.id := Forest.Link(n.parentId, n.isFolder)];
    Forest.AddLeafKeepsAcyclic(t, h, n.id, Forest.Link(n.parentId, n.isFolder));
  }

  /** A create request that gives only a title always passes the parent
      guard, so the create route always succeeds on it. The row it inserts
      is a root note (one the root listing returns), not a folder, with
      empty content, and inserting it under a fresh id keeps the tree
      invariant and the absence of cycles. */
  lemma CreateDefaultsMakesRoot(notes: map<int, Note>, title: string, id: int)
    ensures CheckParent(notes, CreateWithDefaults(title).parentId) == None
    ensures var n := NewRow(id, CreateWithDefaults(title));
              && n.id == id && n.title == title && n.content == Some("") && !n.isFolder && n.parentId.None?
              && (ParentsValid(notes) && id !in notes ==> ParentsValid(notes[id := n]))
              && (ParentsValid(notes) && 0 < id && id !in notes && Forest.Acyclic(Links(notes)) ==>
                    Forest.Acyclic(Links(notes[id := n])))
  {
    var n := NewRow(id, CreateWithDefaults(title));
    if ParentsValid(notes) && id !in notes {
      PlaceKeepsParentsValid(notes, n);
      if 0 < id && Forest.Acyclic(Links(notes)) {
        CreateKeepsAcyclic(notes, n);
      }
    }
  }

  /** The rows left after removing some keep their ids and links. */
  lemma RowsLeft(start: map<int, Note>, s: set<int>)
    requires KeysMatch(start)
    ensures KeysMatch(start - s) && Links(start - s) == Links(start) - s
  {
    LinksMinus(start, s);
  }

  /** The rows a filtered scan returns are rows of the table, stored under
      their own ids, kept by the filter, each once. */
  lemma Fetched(notes: map<int, Note>, keep: Note -> bool, r: seq<Note>, ids: seq<int>)
    requires KeysMatch(notes) && |r| == |ids|
    requires forall i :: 0 <= i < |ids| ==> ids[i] in notes && r[i] == notes[ids[i]] && keep(r[i])
    requires forall i, j :: 0 <= i < j < |ids| ==> ids[i] != ids[j]
    ensures forall n :: n in r ==> n.id in notes && notes[n.id] == n && keep(n)
    ensures forall i, j :: 0 <= i < j < |r| ==> r[i].id != r[j].id
  {
    forall n | n in r ensures n.id in notes && notes[n.id] == n && keep(n) {
      var i :| 0 <= i < |r| && r[i] == n;
    }
  }

  /** Before the delete loop handles the `i`-th child `ids[i]` of `p`, the
      rows left still hold it, stored under their own ids, ranked, and with
      everything below it as at the start. */
  lemma TurnReady(start: map<int, Note>, t: Forest.Table, h: map<int, nat>, p: int, ids: seq<int>, i: int)
    requires KeysMatch(start) && t == Links(start) && Forest.Ranked(t, h) && p in t && p in h && 0 <= i < |ids|
    requires forall j :: 0 <= j < |ids| ==> ids[j] in Forest.Kids(t, p)
    requires forall j, k :: 0 <= j < k < |ids| ==> ids[j] != ids[k]
    ensures forall j :: 0 <= j < i ==> ids[..i][j] in t && ids[..i][j] in h
    ensures var rest := start - Forest.SweptInOrder(t, h, ids[..i]);
              && KeysMatch(rest) && ids[i] in rest && ids[i] in h && h[ids[i]] < h[p] && Forest.Ranked(Links(rest), h)
              && Forest.Cascade(Links(rest), h, ids[i]) == Forest.Cascade(t, h, ids[i])
  {
    Forest.ChildStillPresent(t, h, p, ids, i);
    RowsLeft(start, Forest.SweptInOrder(t, h, ids[..i]));
  }

  /** The rows the children query returns are the children of `p`, each
      once, stored under their own ids. */
  lemma FetchedChildren(start: map<int, Note>, p: int, children: seq<Note>, ids: seq<int>)
    requires KeysMatch(start) && |children| == |ids|
    requires forall i :: 0 <= i < |ids| ==>
               ids[i] in start && children[i] == start[ids[i]] && children[i].parentId == Some(p)
    requires forall k :: k in start && start[k].parentId == Some(p) ==> start[k] in children
    ensures forall i :: 0 <= i < |ids| ==> children[i].id == ids[i] && ids[i] in Forest.Kids(Links(start), p)
    ensures forall k :: k in Forest.Kids(Links(start), p) <==> k in ids
  {
    forall k | k in Forest.Kids(Links(start), p) ensures k in ids {
      assert start[k] in children;
      var j :| 0 <= j < |children| && children[j] == start[k];
      assert ids[j] == k;
    }
  }

  /** The table of notes, with the id the next insert receives. */
  class NoteStore {
    var notes: map<int, Note>
    var nextId: int

    /** Ids are positive and below the next id, every row is stored under its
        own id, and the tree invariant holds. */
    ghost predicate Valid()
      reads this
    {
      && 0 < nextId
      && (forall k :: k in notes ==> 0 < k < nextId)
      && KeysMatch(notes)
      && ParentsValid(notes)
    }

    constructor ()
      ensures Valid() && notes == map[] && nextId == 1
      ensures Forest.Acyclic(Links(notes))
    {
      notes := map[];
      nextId := 1;
      assert Forest.Ranked(Links(map[]), map[]);
    }

    /** `GET /notes/`: every note that has no parent. */
    method GetRootNotes() returns (r: seq<Note>)
      requires Valid()
      ensures forall n :: n in r ==> n.id in notes && notes[n.id] == n && n.parentId.None?
      ensures forall k :: k in notes && notes[k].parentId.None? ==> notes[k] in r
      ensures forall i, j :: 0 <= i < j < |r| ==> r[i].id != r[j].id
    {
      ghost var ids;
      var keep := (n: Note) => n.parentId.None?;
      r, ids := Query.Select(notes, keep, None);
      Fetched(notes, keep, r, ids);
    }

    /** `GET /notes/{id}`: the note, or a 404 exactly when no note has the
        id. */
    method GetNote(id: int) returns (r: Result<Note>)
      ensures r.Ok? <==> id in notes
      ensures r.Ok? ==> r.value == notes[id]
      ensures r.Err? ==> r.error == NotFound("Note not found")
    {
      var found := Find(notes, id);
      if found.None? {
        return Err(NotFound("Note not found"));
      }
      r := Ok(found.value);
    }

    /** `GET /notes/{id}/children`: every note whose parent is folder `id`. */
    method GetNoteChildren(id: int) returns (r: Result<seq<Note>>)
      requires Valid()
      ensures r == Err(NotFound("Parent note not found")) <==> id !in notes
      ensures r == Err(InvalidOperation("Note is not a folder")) <==> id in notes && !notes[id].isFolder
      ensures r.Ok? <==> id in notes && notes[id].isFolder
      ensures r.Ok? ==> forall n :: n in r.value ==> n.id in notes && notes[n.id] == n && n.parentId == Some(id)
      ensures r.Ok? ==> forall k :: k in notes && notes[k].parentId == Some(id) ==> notes[k] in r.value
      ensures r.Ok? ==> forall i, j :: 0 <= i < j < |r.value| ==> r.value[i].id != r.value[j].id
    {
      var parent := Find(notes, id);
      if parent.None? {
        return Err(NotFound("Parent note not found"));
      }
      if !parent.value.isFolder {
        return Err(InvalidOperation("Note is not a folder"));
      }
      var children;
      ghost var ids;
      var keep := (n: Note) => n.parentId == Some(id);
      children, ids := Query.Select(notes, keep, None);
      Fetched(notes, keep, children, ids);
      r := Ok(children);
    }

    /** `POST /notes/`: inserts the requested note under a fresh id, after
        the parent guard; nothing is inserted when the guard fails. */
    method CreateNote(req: NoteCreate) returns (r: Result<Note>)
      requires Valid()
      modifies this
      ensures Valid()
      ensures r.Ok? <==> CheckParent(old(notes), req.parentId) == None
      ensures r.Err? ==> Some(r.error) == CheckParent(old(notes), req.parentId) && notes == old(notes)
      ensures r.Ok? ==> r.value == NewRow(r.value.id, req) && r.value.id !in old(notes)
                        && notes == old(notes)[r.value.id := r.value]
      ensures r.Ok? ==> r.value.content.Some? && (req.content.Some? ==> r.value.content == req.content)
      ensures Forest.Acyclic(Links(old(notes))) ==> Forest.Acyclic(Links(notes))
    {
      var err := CheckParent(notes, req.parentId);
      if err.Some? {
        return Err(err.value);
      }
      var row := NewRow(nextId, req);
      PlaceKeepsParentsValid(notes, row);
      if Forest.Acyclic(Links(notes)) {
        CreateKeepsAcyclic(notes, row);
      }
      notes := notes[nextId := row];
      nextId := nextId + 1;
      r := Ok(row);
    }

    /** `PUT /notes/{id}`: applies the fields the client sent. A truthy new
        parent passes the parent guard first; an explicit null parent moves
        the note to the root unchecked. */
    method UpdateNote(id: int, u: NoteUpdate) returns (r: Result<Note>)
      requires Valid()
      modifies this`notes
      ensures Valid()
      ensures id !in old(notes) ==> r == Err(NotFound("Note not found")) && notes == old(notes)
      ensures id in old(notes) && u.parentId.Set? && CheckParent(old(notes), u.parentId.value).Some? ==>
                r == Err(CheckParent(old(notes), u.parentId.value).value) && notes == old(notes)
      ensures id in old(notes) && (u.parentId.Unset? || CheckParent(old(notes), u.parentId.value).None?) ==>
                r == Ok(Patched(old(notes)[id], u)) && notes == old(notes)[id := r.value]
      ensures r.Ok? ==> r.value.id == id && r.value.isFolder == old(notes)[id].isFolder
    {
      var found := Find(notes, id);
      if found.None? {
        return Err(NotFound("Note not found"));
      }
      if u.parentId.Set? {
        var err := CheckParent(notes, u.parentId.value);
        if err.Some? {
          return Err(err.value);
        }
      }
      var note := SetAttributes(found.value, UpdateData(u));
      UpdateLoopIsPatch(found.value, u);
      PatchKeepsParentsValid(notes, id, u);
      notes := notes[id := note];
      r := Ok(note);
    }

    /** `delete_children_recursive`: deletes every child of `parent`, first
        emptying each child that is a folder. The rank map `h` ranks the
        rows below `parent`, which is possible exactly when `parent` lies on
        no cycle of parent links (`Forest.GroundedIffNotOnCycle`); cycles
        elsewhere in the table do not matter. Only folders have children, as
        in every store the routes keep: the `children` relationship has no
        delete cascade, so deleting a non-folder that has children would set
        their parent to null instead. The method removes exactly the notes
        below `parent`. */
    method DeleteChildrenRecursive(parent: int, ghost h: map<int, nat>)
      requires KeysMatch(notes) && parent in notes && parent in h && Forest.Ranked(Links(notes), h)
      requires Forest.FoldersOnly(Links(notes))
      modifies this`notes
      ensures notes == old(notes) - Forest.Cascade(Links(old(notes)), h, parent)
      decreases h[parent]
    {
      ghost var t := Links(notes);
      ghost var start := notes;
      var children;
      ghost var ids;
      children, ids := Query.Select(notes, (n: Note) => n.parentId == Some(parent), None);
      ghost var kids := Forest.Kids(t, parent);
      FetchedChildren(start, parent, children, ids);
      var i := 0;
      while i < |children|
        invariant 0 <= i <= |children|
        invariant notes == start - Forest.SweptInOrder(t, h, ids[..i])
      {
        var child := children[i];
        TurnReady(start, t, h, parent, ids, i);
        if child.isFolder {
          DeleteChildrenRecursive(child.id, h);
        }
        Forest.SweepStep(start, t, h, ids, i, notes);
        notes := notes - {child.id};
        i := i + 1;
      }
      assert ids[..i] == ids;
      Forest.SweptInOrderIsSwept(t, h, ids, kids);
      Forest.CascadeIsSwept(t, h, parent);
    }

    /** `DELETE /notes/{id}`: deletes the note and, when it is a folder,
        everything below it. A folder to delete must not lie on a cycle of
        parent links: on one, the recursive delete calls itself until
        Python's recursion limit, and the request fails with nothing deleted. */
    method DeleteNote(id: int) returns (r: Result<string>)
      requires Valid()
      requires id in notes && notes[id].isFolder ==> !Forest.Descends(Links(notes), id, id)
      modifies this`notes
      ensures Valid()
      ensures r.Ok? <==> id in old(notes)
      ensures r.Err? ==> r.error == NotFound("Note not found") && notes == old(notes)
      ensures r.Ok? ==> r.value == "Note deleted successfully"
                        && notes == old(notes) - Forest.Subtree(Links(old(notes)), id)
      ensures Forest.Acyclic(Links(old(notes))) ==> Forest.Acyclic(Links(notes))
    {
      var found := Find(notes, id);
      if found.None? {
        return Err(NotFound("Note not found"));
      }
      ghost var start := notes;
      ghost var t := Links(notes);
      ParentsAreFolders(notes);
      if found.value.isFolder {
        Forest.GroundedIffNotOnCycle(t, id);
        ghost var h: map<int, nat> :| id in h && Forest.Ranked(t, h);
        DeleteChildrenRecursive(id, h);
        Forest.FolderRemoved(start, t, h, id);
      } else {
        Forest.LeafRemoved(start, t, id);
      }
      notes := notes - {id};
      RemoveSubtreeKeepsParentsValid(start, id);
      if Forest.Acyclic(t) {
        LinksMinus(start, Forest.Subtree(t, id));
        Forest.RemoveKeepsAcyclic(t, Forest.Subtree(t, id));
      }
      r := Ok("Note deleted successfully");
    }
  }
}
